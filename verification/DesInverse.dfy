/** Decryption undoes encryption: the argument of FIPS 46-3, at the level of bits. */
module DesInverse {
  import opened DesPermute
  import opened DesTables
  import opened DesFips

  lemma RoundUndoes(x: Pair, k: Key48, salt: nat)
    ensures Round(Round(x, k, salt).Swap(), k, salt).Swap() == x
  {
    var f := F(x.r, k, salt);
    assert Xor(Xor(x.l, f), f) == x.l;
  }

  lemma {:induction false} RoundsAppend(x: Pair, ks: seq<Key48>, k: Key48, salt: nat)
    ensures Rounds(x, ks + [k], salt) == Round(Rounds(x, ks, salt), k, salt)
    decreases |ks|
  {
    if ks == [] {
      assert [k][1..] == [] && [] + [k] == [k];
    } else {
      RoundsAppend(Round(x, ks[0], salt), ks[1..], k, salt);
      assert (ks + [k])[1..] == ks[1..] + [k];
    }
  }

  /** The reversed schedule takes the rounds back. */
  lemma {:induction false} RoundsUndo(x: Pair, ks: seq<Key48>, salt: nat)
    ensures Rounds(Rounds(x, ks, salt).Swap(), Reverse(ks), salt) == x.Swap()
    decreases |ks|
  {
    if ks != [] {
      var k, rest, y := ks[0], ks[1..], Round(x, ks[0], salt);
      RoundsUndo(y, rest, salt);
      RoundsAppend(Rounds(x, ks, salt).Swap(), Reverse(rest), k, salt);
      RoundUndoes(x, k, salt);
    }
  }

  lemma {:induction false} IterateAppend(x: Pair, ks: seq<Key48>, salt: nat, n: nat)
    ensures Iterate(x, ks, salt, n + 1) == Rounds(Iterate(x, ks, salt, n), ks, salt).Swap()
    decreases n
  {
    if n > 0 {
      IterateAppend(Rounds(x, ks, salt).Swap(), ks, salt, n - 1);
    }
  }

  lemma IterateOnce(x: Pair, ks: seq<Key48>, salt: nat, n: nat)
    requires n > 0
    ensures Iterate(x, ks, salt, n) == Iterate(Rounds(x, ks, salt).Swap(), ks, salt, n - 1)
  {
  }

  lemma CoreUndo(x: Pair, ks: seq<Key48>, salt: nat)
    ensures Rounds(Rounds(x, ks, salt).Swap(), Reverse(ks), salt).Swap() == x
  {
    RoundsUndo(x, ks, salt);
  }

  lemma LastIteration(x: Pair, ks: seq<Key48>, salt: nat, n: nat)
    requires n > 0
    ensures Rounds(Iterate(x, ks, salt, n), Reverse(ks), salt).Swap() == Iterate(x, ks, salt, n - 1)
  {
    IterateAppend(x, ks, salt, n - 1);
    CoreUndo(Iterate(x, ks, salt, n - 1), ks, salt);
  }

  lemma {:induction false} IterateUndo(x: Pair, ks: seq<Key48>, salt: nat, n: nat)
    ensures Iterate(Iterate(x, ks, salt, n), Reverse(ks), salt, n) == x
    decreases n
  {
    if n > 0 {
      LastIteration(x, ks, salt, n);
      IterateOnce(Iterate(x, ks, salt, n), Reverse(ks), salt, n);
      IterateUndo(x, ks, salt, n - 1);
    }
  }

  lemma EnterLeaveBit(x: Pair, q: nat)
    requires q < 64
    ensures Leave(x)[Flip(IP(q) - 1)] == (x.l + x.r)[q]
  {
    FPInverts(q);
    FlipTwice(IP(q) - 1);
  }

  lemma EnterLeave(x: Pair)
    ensures Enter(Leave(x)) == x
  {
    var e := Enter(Leave(x));
    forall j | 0 <= j < 32 ensures e.l[j] == x.l[j] {
      EnterLeaveBit(x, j);
    }
    forall j | 0 <= j < 32 ensures e.r[j] == x.r[j] {
      EnterLeaveBit(x, j + 32);
    }
    assert e.l == x.l && e.r == x.r;
  }

  lemma LeaveEnter(b: Block)
    ensures Leave(Enter(b)) == b
  {
    forall i | 0 <= i < 64 ensures Leave(Enter(b))[i] == b[i] {
      var n := Flip(i);
      IPInverts(n);
      FlipTwice(i);
      var x := Enter(b);
      assert (x.l + x.r)[FP(n) - 1] == b[Flip(n)];
    }
  }

  lemma {:induction false} ReverseTwice(ks: seq<Key48>)
    ensures |Reverse(ks)| == |ks| && Reverse(Reverse(ks)) == ks
  {
    if ks != [] {
      ReverseTwice(ks[1..]);
      ReverseAppend(Reverse(ks[1..]), ks[0]);
    }
  }

  lemma {:induction false} ReverseAppend(ks: seq<Key48>, k: Key48)
    ensures Reverse(ks + [k]) == [k] + Reverse(ks)
  {
    if ks == [] {
      assert [k][1..] == [] && [] + [k] == [k];
    } else {
      ReverseAppend(ks[1..], k);
      assert (ks + [k])[1..] == ks[1..] + [k];
    }
  }

  /** `-n` iterations undo `n`, for every block, subkeys, salt and `n` of either sign. */
  lemma CipherUndoes(b: Block, ks: seq<Key48>, salt: nat, n: int)
    ensures Cipher(Cipher(b, ks, salt, n), ks, salt, -n) == b
  {
    var x := Enter(b);
    LeaveEnter(b);
    if n >= 0 {
      EnterLeave(Iterate(x, ks, salt, n));
      IterateUndo(x, ks, salt, n);
    } else {
      EnterLeave(Iterate(x, Reverse(ks), salt, -n));
      IterateUndo(x, Reverse(ks), salt, -n);
      ReverseTwice(ks);
    }
  }
}
