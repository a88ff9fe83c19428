/** Blocks of bits, and crypt.c's permutations by nibble-indexed tables. */
module DesPermute {
  import opened CTypes

  /** A C_block: eight bytes as 64 bits, bit 0 of each byte first. */
  type Block = b: seq<bool> | |b| == 64 witness seq(64, _ => false)

  const ZeroBlock: Block := seq(64, _ => false)

  /** Bit `i` of the number `n`. */
  function Bit(n: nat, i: nat): bool {
    if i == 0 then n % 2 == 1 else Bit(n / 2, i - 1)
  }

  function Or(a: Block, b: Block): (c: Block)
    ensures forall i | 0 <= i < 64 :: c[i] == (a[i] || b[i])
  {
    seq(64, i requires 0 <= i < 64 => a[i] || b[i])
  }

  function AsNat(b: bool): nat { if b then 1 else 0 }

  /** Half a byte, as the number that indexes a table. */
  function Nibble(b: Block, i: nat): (n: nat)
    requires i < 16
    ensures n < 16
  {
    AsNat(b[4 * i]) + 2 * AsNat(b[4 * i + 1]) + 4 * AsNat(b[4 * i + 2]) + 8 * AsNat(b[4 * i + 3])
  }

  lemma NibbleBit(b: Block, i: nat, r: nat)
    requires i < 16 && r < 4
    ensures Bit(Nibble(b, i), r) == b[4 * i + r]
  {
    var n := Nibble(b, i);
    assert n / 2 == AsNat(b[4 * i + 1]) + 2 * AsNat(b[4 * i + 2]) + 4 * AsNat(b[4 * i + 3]);
    assert n / 2 / 2 == AsNat(b[4 * i + 2]) + 2 * AsNat(b[4 * i + 3]);
    assert n / 2 / 2 / 2 == AsNat(b[4 * i + 3]);
    assert Bit(n / 2, 0) == b[4 * i + 1] && Bit(n / 2 / 2, 0) == b[4 * i + 2];
    assert Bit(n / 2 / 2 / 2, 0) == b[4 * i + 3];
    assert Bit(n / 2, 1) == b[4 * i + 2] && Bit(n / 2, 2) == Bit(n / 2 / 2, 1);
  }

  /** A transformation vector: output bit `k` comes from input bit `p[k] - 1`, or is 0. */
  ghost predicate Vector(p: seq<nat>, bitsIn: nat) {
    |p| == 64 && forall k | 0 <= k < 64 :: p[k] <= bitsIn
  }

  /** What the vector `p` makes of the block. */
  function Permuted(p: seq<nat>, b: Block): Block
    requires |p| == 64 && forall k | 0 <= k < 64 :: p[k] <= 64
  {
    seq(64, k requires 0 <= k < 64 => p[k] > 0 && b[p[k] - 1])
  }

  /** The bit of table entry [i][j] that the vector asks for. */
  ghost predicate Entry(p: seq<nat>, i: nat, j: nat, k: nat)
    requires k < |p|
  {
    p[k] > 0 && (p[k] - 1) / 4 == i && Bit(j, (p[k] - 1) % 4)
  }

  /** `perm` represents the vector, as far as its first `done` output bits go. */
  ghost predicate Represents(perm: array2<Block>, p: seq<nat>, done: nat)
    reads perm
  {
    && perm.Length0 == 16 && perm.Length1 == 16 && |p| == 64
    && forall i, j, k | 0 <= i < 16 && 0 <= j < 16 && 0 <= k < 64 ::
         perm[i, j][k] == (k < done && Entry(p, i, j, k))
  }

  method InitPerm(perm: array2<Block>, p: seq<nat>, charsIn: nat, charsOut: nat)
    requires perm.Length0 == 16 && perm.Length1 == 16 && charsIn <= 8 && charsOut == 8
    requires Vector(p, 8 * charsIn)
    requires forall i, j | 0 <= i < 16 && 0 <= j < 16 :: perm[i, j] == ZeroBlock
    modifies perm
    ensures Represents(perm, p, 64)
  {
    var k := 0;
    while k < charsOut * 8
      invariant k <= 64 && Represents(perm, p, k)
    {
      if p[k] > 0 {
        var l := p[k] - 1;
        var i, mask := l / 4, l % 4;
        var j := 0;
        while j < 16
          invariant j <= 16
          invariant forall i', j', k' | 0 <= i' < 16 && 0 <= j' < 16 && 0 <= k' < 64 ::
            perm[i', j'][k'] ==
              ((k' < k && Entry(p, i', j', k')) || (k' == k && i' == i && j' < j && Entry(p, i, j', k)))
        {
          if Bit(j, mask) {
            perm[i, j] := perm[i, j][k := true];
          }
          j := j + 1;
        }
      }
      k := k + 1;
    }
  }

  method Permute(cp: Block, perm: array2<Block>, charsIn: nat, ghost p: seq<nat>) returns (out: Block)
    requires charsIn <= 8 && Vector(p, 8 * charsIn) && Represents(perm, p, 64)
    ensures out == Permuted(p, cp)
  {
    out := ZeroBlock;
    var c := 0;
    while c < charsIn
      invariant c <= charsIn
      invariant forall k | 0 <= k < 64 :: out[k] == (0 < p[k] <= 8 * c && cp[p[k] - 1])
    {
      ghost var was := out;
      out := Or(out, perm[2 * c, Nibble(cp, 2 * c)]);
      out := Or(out, perm[2 * c + 1, Nibble(cp, 2 * c + 1)]);
      forall k | 0 <= k < 64
        ensures out[k] == (0 < p[k] <= 8 * (c + 1) && cp[p[k] - 1])
      {
        if p[k] > 0 {
          var l := p[k] - 1;
          if l / 4 == 2 * c || l / 4 == 2 * c + 1 {
            NibbleBit(cp, l / 4, l % 4);
          }
        }
      }
      c := c + 1;
    }
    assert out == Permuted(p, cp);
  }
}
