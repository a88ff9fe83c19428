/** ax88796AddrFilterSet: the 64-bit hash filter of the multicast addresses. */
module McastFilter {
  import Crc

  /** An Ethernet address. */
  type Address = a: seq<bv8> | |a| == 6 witness seq(6, _ => 0)

  /** What bit `i` of a word weighs in a number. */
  function Weighs(c: bv32, i: bv3, weight: nat): nat {
    if (c >> i) & 1 == 1 then weight else 0
  }

  /** The filter's bit for an address: the number that the low six bits of its CRC make. */
  function HashOf(a: Address): (n: nat)
    ensures n < 64
  {
    var c := Crc.Remainder(a);
    Weighs(c, 5, 32) + Weighs(c, 4, 16) + Weighs(c, 3, 8) + Weighs(c, 2, 4) + Weighs(c, 1, 2) + Weighs(c, 0, 1)
  }

  /** `& 0x3f`, as an index. */
  function SixBits(c: bv32): (n: nat)
    ensures n < 64
  {
    ((c & 0x3F) as bv6) as nat
  }

  lemma SixBitsAre(c: bv32)
    ensures SixBits(c) == Weighs(c, 5, 32) + Weighs(c, 4, 16) + Weighs(c, 3, 8) + Weighs(c, 2, 4)
                          + Weighs(c, 1, 2) + Weighs(c, 0, 1)
  {
  }

  /** Bit `n` of the filter: bit n % 8 of byte n / 8. */
  function FilterBit(filter: seq<seq<bool>>, n: nat): bool
    requires n < 64 && |filter| == 8 && forall i | 0 <= i < 8 :: |filter[i]| == 8
  {
    filter[n / 8][n % 8]
  }

  /** hash_table: four words of sixteen bits, bit 0 first. */
  ghost predicate Words(w: seq<seq<bool>>) {
    |w| == 4 && forall i | 0 <= i < 4 :: |w[i]| == 16
  }

  /** The words hold bit 63 and the bits of the addresses given. */
  ghost predicate Holds(w: seq<seq<bool>>, list: seq<Address>, done: nat)
    requires Words(w) && done <= |list|
  {
    forall n {:trigger w[n / 16][n % 16]} | 0 <= n < 64 ::
      w[n / 16][n % 16] <==> (n == 63 || exists j | 0 <= j < done :: HashOf(list[j]) == n)
  }

  /** hash_table after the list's loop. */
  method HashTable(list: seq<Address>) returns (w: seq<seq<bool>>)
    ensures Words(w) && Holds(w, list, |list|)
  {
    w := seq(4, i => seq(16, b => i == 3 && b == 15));
    var k := 0;
    while k < |list|
      invariant k <= |list| && Words(w) && Holds(w, list, k)
    {
      var c := Crc.CalCrc(list[k], false);
      var crc := SixBits(c);
      SixBitsAre(c);
      ghost var was := w;
      w := w[crc / 16 := w[crc / 16][crc % 16 := true]];
      forall n | 0 <= n < 64
        ensures w[n / 16][n % 16] <==> (n == 63 || exists j | 0 <= j < k + 1 :: HashOf(list[j]) == n)
      {
        assert n == crc <==> n / 16 == crc / 16 && n % 16 == crc % 16;
        assert w[n / 16][n % 16] <==> (n == crc || was[n / 16][n % 16]);
      }
      k := k + 1;
    }
  }

  /** The words' bytes, low byte first. */
  method Pack(w: seq<seq<bool>>) returns (filter: seq<seq<bool>>)
    requires Words(w)
    ensures |filter| == 8 && forall i | 0 <= i < 8 :: |filter[i]| == 8
    ensures forall n | 0 <= n < 64 :: FilterBit(filter, n) == w[n / 16][n % 16]
  {
    filter := [w[0][..8], w[0][8..], w[1][..8], w[1][8..], w[2][..8], w[2][8..], w[3][..8], w[3][8..]];
    forall n | 0 <= n < 64 ensures FilterBit(filter, n) == w[n / 16][n % 16] {
      ByteOfWord(filter, w, n);
    }
  }

  lemma ByteOfWord(filter: seq<seq<bool>>, w: seq<seq<bool>>, n: nat)
    requires Words(w) && n < 64 && |filter| == 8
    requires forall i | 0 <= i < 4 :: filter[2 * i] == w[i][..8] && filter[2 * i + 1] == w[i][8..]
    ensures filter[n / 8] == if n % 16 < 8 then w[n / 16][..8] else w[n / 16][8..]
    ensures filter[n / 8][n % 8] == w[n / 16][n % 16]
  {
    var i := n / 16;
    assert n / 8 == if n % 16 < 8 then 2 * i else 2 * i + 1;
    assert n % 8 == if n % 16 < 8 then n % 16 else n % 16 - 8;
  }

  /** Bit `n` of the filter is set exactly when `n` is 63 or some listed address hashes to `n`. */
  method AddrFilterSet(list: seq<Address>) returns (filter: seq<seq<bool>>)
    ensures |filter| == 8 && forall i | 0 <= i < 8 :: |filter[i]| == 8
    ensures forall n | 0 <= n < 64 ::
      FilterBit(filter, n) <==> (n == 63 || exists j | 0 <= j < |list| :: HashOf(list[j]) == n)
  {
    var w := HashTable(list);
    filter := Pack(w);
    forall n | 0 <= n < 64
      ensures FilterBit(filter, n) <==> (n == 63 || exists j | 0 <= j < |list| :: HashOf(list[j]) == n)
    {
      assert FilterBit(filter, n) == w[n / 16][n % 16];
    }
  }
}
