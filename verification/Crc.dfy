/** The driver's table-driven CRC-32 and the multicast hash filter it fills. */
module Crc {
  function Row(i: bv4, x0: bv32, x1: bv32, x2: bv32, x3: bv32, x4: bv32, x5: bv32, x6: bv32, x7: bv32,
               x8: bv32, x9: bv32, x10: bv32, x11: bv32, x12: bv32, x13: bv32, x14: bv32, x15: bv32): bv32 {
    if i == 0 then x0
    else if i == 1 then x1
    else if i == 2 then x2
    else if i == 3 then x3
    else if i == 4 then x4
    else if i == 5 then x5
    else if i == 6 then x6
    else if i == 7 then x7
    else if i == 8 then x8
    else if i == 9 then x9
    else if i == 10 then x10
    else if i == 11 then x11
    else if i == 12 then x12
    else if i == 13 then x13
    else if i == 14 then x14
    else x15
  }

  /** CrcTable. */
  function CrcTable(i: bv8): bv32 {
    var hi, lo := (i >> 4) as bv4, (i & 0xF) as bv4;
    if hi == 0 then
      Row(lo, 0x00000000, 0x77073096, 0xEE0E612C, 0x990951BA, 0x076DC419, 0x706AF48F, 0xE963A535, 0x9E6495A3,
          0x0EDB8832, 0x79DCB8A4, 0xE0D5E91E, 0x97D2D988, 0x09B64C2B, 0x7EB17CBD, 0xE7B82D07, 0x90BF1D91)
    else if hi == 1 then
      Row(lo, 0x1DB71064, 0x6AB020F2, 0xF3B97148, 0x84BE41DE, 0x1ADAD47D, 0x6DDDE4EB, 0xF4D4B551, 0x83D385C7,
          0x136C9856, 0x646BA8C0, 0xFD62F97A, 0x8A65C9EC, 0x14015C4F, 0x63066CD9, 0xFA0F3D63, 0x8D080DF5)
    else if hi == 2 then
      Row(lo, 0x3B6E20C8, 0x4C69105E, 0xD56041E4, 0xA2677172, 0x3C03E4D1, 0x4B04D447, 0xD20D85FD, 0xA50AB56B,
          0x35B5A8FA, 0x42B2986C, 0xDBBBC9D6, 0xACBCF940, 0x32D86CE3, 0x45DF5C75, 0xDCD60DCF, 0xABD13D59)
    else if hi == 3 then
      Row(lo, 0x26D930AC, 0x51DE003A, 0xC8D75180, 0xBFD06116, 0x21B4F4B5, 0x56B3C423, 0xCFBA9599, 0xB8BDA50F,
          0x2802B89E, 0x5F058808, 0xC60CD9B2, 0xB10BE924, 0x2F6F7C87, 0x58684C11, 0xC1611DAB, 0xB6662D3D)
    else if hi == 4 then
      Row(lo, 0x76DC4190, 0x01DB7106, 0x98D220BC, 0xEFD5102A, 0x71B18589, 0x06B6B51F, 0x9FBFE4A5, 0xE8B8D433,
          0x7807C9A2, 0x0F00F934, 0x9609A88E, 0xE10E9818, 0x7F6A0DBB, 0x086D3D2D, 0x91646C97, 0xE6635C01)
    else if hi == 5 then
      Row(lo, 0x6B6B51F4, 0x1C6C6162, 0x856530D8, 0xF262004E, 0x6C0695ED, 0x1B01A57B, 0x8208F4C1, 0xF50FC457,
          0x65B0D9C6, 0x12B7E950, 0x8BBEB8EA, 0xFCB9887C, 0x62DD1DDF, 0x15DA2D49, 0x8CD37CF3, 0xFBD44C65)
    else if hi == 6 then
      Row(lo, 0x4DB26158, 0x3AB551CE, 0xA3BC0074, 0xD4BB30E2, 0x4ADFA541, 0x3DD895D7, 0xA4D1C46D, 0xD3D6F4FB,
          0x4369E96A, 0x346ED9FC, 0xAD678846, 0xDA60B8D0, 0x44042D73, 0x33031DE5, 0xAA0A4C5F, 0xDD0D7CC9)
    else if hi == 7 then
      Row(lo, 0x5005713C, 0x270241AA, 0xBE0B1010, 0xC90C2086, 0x5768B525, 0x206F85B3, 0xB966D409, 0xCE61E49F,
          0x5EDEF90E, 0x29D9C998, 0xB0D09822, 0xC7D7A8B4, 0x59B33D17, 0x2EB40D81, 0xB7BD5C3B, 0xC0BA6CAD)
    else if hi == 8 then
      Row(lo, 0xEDB88320, 0x9ABFB3B6, 0x03B6E20C, 0x74B1D29A, 0xEAD54739, 0x9DD277AF, 0x04DB2615, 0x73DC1683,
          0xE3630B12, 0x94643B84, 0x0D6D6A3E, 0x7A6A5AA8, 0xE40ECF0B, 0x9309FF9D, 0x0A00AE27, 0x7D079EB1)
    else if hi == 9 then
      Row(lo, 0xF00F9344, 0x8708A3D2, 0x1E01F268, 0x6906C2FE, 0xF762575D, 0x806567CB, 0x196C3671, 0x6E6B06E7,
          0xFED41B76, 0x89D32BE0, 0x10DA7A5A, 0x67DD4ACC, 0xF9B9DF6F, 0x8EBEEFF9, 0x17B7BE43, 0x60B08ED5)
    else if hi == 10 then
      Row(lo, 0xD6D6A3E8, 0xA1D1937E, 0x38D8C2C4, 0x4FDFF252, 0xD1BB67F1, 0xA6BC5767, 0x3FB506DD, 0x48B2364B,
          0xD80D2BDA, 0xAF0A1B4C, 0x36034AF6, 0x41047A60, 0xDF60EFC3, 0xA867DF55, 0x316E8EEF, 0x4669BE79)
    else if hi == 11 then
      Row(lo, 0xCB61B38C, 0xBC66831A, 0x256FD2A0, 0x5268E236, 0xCC0C7795, 0xBB0B4703, 0x220216B9, 0x5505262F,
          0xC5BA3BBE, 0xB2BD0B28, 0x2BB45A92, 0x5CB36A04, 0xC2D7FFA7, 0xB5D0CF31, 0x2CD99E8B, 0x5BDEAE1D)
    else if hi == 12 then
      Row(lo, 0x9B64C2B0, 0xEC63F226, 0x756AA39C, 0x026D930A, 0x9C0906A9, 0xEB0E363F, 0x72076785, 0x05005713,
          0x95BF4A82, 0xE2B87A14, 0x7BB12BAE, 0x0CB61B38, 0x92D28E9B, 0xE5D5BE0D, 0x7CDCEFB7, 0x0BDBDF21)
    else if hi == 13 then
      Row(lo, 0x86D3D2D4, 0xF1D4E242, 0x68DDB3F8, 0x1FDA836E, 0x81BE16CD, 0xF6B9265B, 0x6FB077E1, 0x18B74777,
          0x88085AE6, 0xFF0F6A70, 0x66063BCA, 0x11010B5C, 0x8F659EFF, 0xF862AE69, 0x616BFFD3, 0x166CCF45)
    else if hi == 14 then
      Row(lo, 0xA00AE278, 0xD70DD2EE, 0x4E048354, 0x3903B3C2, 0xA7672661, 0xD06016F7, 0x4969474D, 0x3E6E77DB,
          0xAED16A4A, 0xD9D65ADC, 0x40DF0B66, 0x37D83BF0, 0xA9BCAE53, 0xDEBB9EC5, 0x47B2CF7F, 0x30B5FFE9)
    else
      Row(lo, 0xBDBDF21C, 0xCABAC28A, 0x53B39330, 0x24B4A3A6, 0xBAD03605, 0xCDD70693, 0x54DE5729, 0x23D967BF,
          0xB3667A2E, 0xC4614AB8, 0x5D681B02, 0x2A6F2B94, 0xB40BBE37, 0xC30C8EA1, 0x5A05DF1B, 0x2D02EF8D)
  }

  // ---------------------------------------------------------------- CRC-32, bit by bit

  /** The generator polynomial, reflected. */
  const POLY: bv32 := 0xEDB88320

  function Xor(a: bv32, b: bv32): bv32 { a ^ b }

  function Wide(b: bv8): bv32 { b as bv32 }

  function First(b: bv8): bool { b & 1 == 1 }

  function Rest(b: bv8): bv8 { b >> 1 }

  /** Division of the register, one place. */
  function Divide(c: bv32): bv32 {
    if c & 1 == 1 then (c >> 1) ^ POLY else c >> 1
  }

  /** The lowest `n` bits of a byte, in the order in which they are sent. */
  function Bits(b: bv8, n: nat): seq<bool> {
    if n == 0 then [] else [First(b)] + Bits(Rest(b), n - 1)
  }

  function ByteBits(b: bv8): seq<bool> { Bits(b, 8) }

  /** A message as bits, `bits` telling those of a byte. */
  function AllBits(bits: bv8 -> seq<bool>, m: seq<bv8>): seq<bool>
    decreases |m|
  {
    if m == [] then [] else bits(m[0]) + AllBits(bits, m[1..])
  }

  /** The register after the bits have entered at its low end, from the value `c`; `d` divides it
      by one place. */
  function Divided(d: bv32 -> bv32, c: bv32, bits: seq<bool>): bv32
    decreases |bits|
  {
    if bits == [] then c else Divided(d, d(if bits[0] then Xor(c, 1) else c), bits[1..])
  }

  /** CRC-32 of a message, before the final complement. */
  function Remainder(m: seq<bv8>): bv32 {
    Divided(Divide, 0xFFFFFFFF, AllBits(ByteBits, m))
  }

  // ---------------------------------------------------------------- division is linear

  lemma BothOdd(x: bv32, y: bv32)
    requires x & 1 == 1 && y & 1 == 1
    ensures (x ^ y) >> 1 == ((x >> 1) ^ POLY) ^ ((y >> 1) ^ POLY) && (x ^ y) & 1 != 1
  {
  }

  lemma FirstOdd(x: bv32, y: bv32)
    requires x & 1 == 1 && y & 1 != 1
    ensures ((x ^ y) >> 1) ^ POLY == ((x >> 1) ^ POLY) ^ (y >> 1) && (x ^ y) & 1 == 1
  {
  }

  lemma BothEven(x: bv32, y: bv32)
    requires x & 1 != 1 && y & 1 != 1
    ensures (x ^ y) >> 1 == (x >> 1) ^ (y >> 1) && (x ^ y) & 1 != 1
  {
  }

  lemma LinearIfOdd(x: bv32, y: bv32)
    requires x & 1 == 1
    ensures Divide(x ^ y) == Divide(x) ^ Divide(y)
  {
    if y & 1 == 1 {
      BothOdd(x, y);
    } else {
      FirstOdd(x, y);
    }
  }

  lemma LinearIfEven(x: bv32, y: bv32)
    requires x & 1 != 1 && y & 1 != 1
    ensures Divide(x ^ y) == Divide(x) ^ Divide(y)
  {
    BothEven(x, y);
  }

  lemma Commutes(x: bv32, y: bv32)
    ensures x ^ y == y ^ x
  {
  }

  lemma LinearIfSecondOdd(x: bv32, y: bv32)
    requires y & 1 == 1
    ensures Divide(x ^ y) == Divide(x) ^ Divide(y)
  {
    LinearIfOdd(y, x);
    Commutes(x, y);
    Commutes(Divide(x), Divide(y));
  }

  lemma DivideIsLinear(x: bv32, y: bv32)
    ensures Divide(x ^ y) == Divide(x) ^ Divide(y)
  {
    if x & 1 == 1 {
      LinearIfOdd(x, y);
    } else if y & 1 == 1 {
      LinearIfSecondOdd(x, y);
    } else {
      LinearIfEven(x, y);
    }
  }

  // ---------------------------------------------------------------- many places at once

  ghost predicate Linear(d: bv32 -> bv32) {
    forall x, y {:trigger d(Xor(x, y))} :: d(Xor(x, y)) == Xor(d(x), d(y))
  }

  lemma DivideLinear()
    ensures Linear(Divide)
  {
    forall x, y ensures Divide(Xor(x, y)) == Xor(Divide(x), Divide(y)) {
      DivideIsLinear(x, y);
    }
  }

  /** Division by `n` places. */
  function Places(d: bv32 -> bv32, c: bv32, n: nat): bv32
    decreases n
  {
    if n == 0 then c else Places(d, d(c), n - 1)
  }

  lemma {:induction false} PlacesAreLinear(d: bv32 -> bv32, x: bv32, y: bv32, n: nat)
    requires Linear(d)
    ensures Places(d, Xor(x, y), n) == Xor(Places(d, x, n), Places(d, y, n))
    decreases n
  {
    if n > 0 {
      assert d(Xor(x, y)) == Xor(d(x), d(y));
      PlacesAreLinear(d, d(x), d(y), n - 1);
    }
  }

  function ShiftN(b: bv8, n: nat): bv8
    decreases n
  {
    if n == 0 then b else ShiftN(Rest(b), n - 1)
  }

  /** A byte laid over the register enters bit by bit, the rest of it coming down a place each time. */
  ghost predicate Enters(d: bv32 -> bv32) {
    forall c, b {:trigger d(Xor(c, Wide(b)))} ::
      d(Xor(c, Wide(b))) == Xor(d(if First(b) then Xor(c, 1) else c), Wide(Rest(b)))
  }

  lemma {:induction false} BitsEnter(d: bv32 -> bv32, c: bv32, b: bv8, n: nat)
    requires Enters(d)
    ensures Places(d, Xor(c, Wide(b)), n) == Xor(Divided(d, c, Bits(b, n)), Wide(ShiftN(b, n)))
    decreases n
  {
    if n > 0 {
      var next := d(if First(b) then Xor(c, 1) else c);
      assert d(Xor(c, Wide(b))) == Xor(next, Wide(Rest(b)));
      BitsEnter(d, next, Rest(b), n - 1);
      assert Bits(b, n)[1..] == Bits(Rest(b), n - 1);
    }
  }

  function Even(b: bv8): bv8 { b & 0xFE }

  lemma OddByte(c: bv32, b: bv8)
    requires First(b)
    ensures Xor(c, Wide(b)) == Xor(Xor(c, 1), Wide(Even(b)))
    ensures !First(Even(b)) && Rest(Even(b)) == Rest(b)
  {
  }

  /** A byte whose lowest bit is clear only comes down. */
  ghost predicate Shifts(d: bv32 -> bv32) {
    forall b {:trigger d(Wide(b))} :: !First(b) ==> d(Wide(b)) == Wide(Rest(b))
  }

  lemma DivideShifts()
    ensures Shifts(Divide)
  {
    forall b | !First(b) ensures Divide(Wide(b)) == Wide(Rest(b)) {
      EvenByte(b);
    }
  }

  lemma EvenByte(b: bv8)
    requires !First(b)
    ensures Divide(Wide(b)) == Wide(Rest(b))
  {
  }

  lemma ByteEnters(d: bv32 -> bv32, c: bv32, b: bv8)
    requires Linear(d) && Shifts(d)
    ensures d(Xor(c, Wide(b))) == Xor(d(if First(b) then Xor(c, 1) else c), Wide(Rest(b)))
  {
    if First(b) {
      OddByte(c, b);
      assert d(Wide(Even(b))) == Wide(Rest(b));
      assert d(Xor(Xor(c, 1), Wide(Even(b)))) == Xor(d(Xor(c, 1)), d(Wide(Even(b))));
    } else {
      assert d(Xor(c, Wide(b))) == Xor(d(c), d(Wide(b)));
    }
  }

  lemma BytesEnter(d: bv32 -> bv32)
    requires Linear(d) && Shifts(d)
    ensures Enters(d)
  {
    forall c, b ensures d(Xor(c, Wide(b))) == Xor(d(if First(b) then Xor(c, 1) else c), Wide(Rest(b))) {
      ByteEnters(d, c, b);
    }
  }

  // ---------------------------------------------------------------- the table

  function Pick(b: bool, x: bv32): bv32 {
    if b then x else 0
  }

  /** The sum of the shares that the bits of an index contribute. */
  function Sum(i: bv8, x0: bv32, x1: bv32, x2: bv32, x3: bv32, x4: bv32, x5: bv32, x6: bv32, x7: bv32): bv32 {
    SumOf(i & 1 != 0, i & 2 != 0, i & 4 != 0, i & 8 != 0, i & 16 != 0, i & 32 != 0, i & 64 != 0, i & 128 != 0,
          x0, x1, x2, x3, x4, x5, x6, x7)
  }

  function SumOf(b0: bool, b1: bool, b2: bool, b3: bool, b4: bool, b5: bool, b6: bool, b7: bool,
                 x0: bv32, x1: bv32, x2: bv32, x3: bv32, x4: bv32, x5: bv32, x6: bv32, x7: bv32): bv32 {
    Xor(Pick(b0, x0), Xor(Pick(b1, x1), Xor(Pick(b2, x2), Xor(Pick(b3, x3),
      Xor(Pick(b4, x4), Xor(Pick(b5, x5), Xor(Pick(b6, x6), Pick(b7, x7))))))))
  }

  /** The table is linear in the bits of its index. */
  function TableSum(i: bv8): bv32 {
    Sum(i, 0x77073096, 0xEE0E612C, 0x076DC419, 0x0EDB8832, 0x1DB71064, 0x3B6E20C8, 0x76DC4190, 0xEDB88320)
  }

  lemma LowerHalf(i: bv8)
    requires i < 0x80
    ensures CrcTable(i) == TableSum(i)
  {
  }

  lemma UpperHalf(i: bv8)
    requires i >= 0x80
    ensures CrcTable(i) == TableSum(i)
  {
  }

  /** Division of each single bit by eight places. */
  lemma Basis()
    ensures Places(Divide, 0, 8) == 0
    ensures Places(Divide, 1, 8) == 0x77073096 && Places(Divide, 2, 8) == 0xEE0E612C
    ensures Places(Divide, 4, 8) == 0x076DC419 && Places(Divide, 8, 8) == 0x0EDB8832
    ensures Places(Divide, 16, 8) == 0x1DB71064 && Places(Divide, 32, 8) == 0x3B6E20C8
    ensures Places(Divide, 64, 8) == 0x76DC4190 && Places(Divide, 128, 8) == 0xEDB88320
  {
    Eight(0);
    Eight(1);
    Eight(2);
    Eight(4);
    Eight(8);
    Eight(16);
    Eight(32);
    Eight(64);
    Eight(128);
  }

  lemma Eight(c: bv32)
    ensures Places(Divide, c, 8) == Divide(Divide(Divide(Divide(Divide(Divide(Divide(Divide(c))))))))
  {
    var d := Divide(Divide(Divide(Divide(c))));
    assert Places(Divide, c, 8) == Places(Divide, d, 4);
    assert Places(Divide, d, 4) == Divide(Divide(Divide(Divide(d))));
  }

  lemma PickDivides(d: bv32 -> bv32, b: bool, x: bv32, rest: bv32)
    requires Linear(d) && Places(d, 0, 8) == 0
    ensures Places(d, Xor(Pick(b, x), rest), 8) == Xor(Pick(b, Places(d, x, 8)), Places(d, rest, 8))
  {
    PlacesAreLinear(d, Pick(b, x), rest, 8);
  }

  lemma LowNibble(i: bv8)
    ensures Wide(i & 0xF) == Xor(Pick(i & 1 != 0, 1), Xor(Pick(i & 2 != 0, 2), Xor(Pick(i & 4 != 0, 4), Pick(i & 8 != 0, 8))))
  {
    if i & 1 != 0 {
    } else {
    }
  }

  lemma HighNibble(i: bv8)
    ensures Wide(i & 0xF0)
         == Xor(Pick(i & 16 != 0, 16), Xor(Pick(i & 32 != 0, 32), Xor(Pick(i & 64 != 0, 64), Pick(i & 128 != 0, 128))))
  {
    if i & 16 != 0 {
    } else {
    }
  }

  lemma Nibbles(i: bv8)
    ensures Wide(i) == Xor(Wide(i & 0xF), Wide(i & 0xF0))
  {
  }

  lemma XorRegroups(a: bv32, b: bv32, c: bv32, d: bv32, rest: bv32)
    ensures Xor(Xor(a, Xor(b, Xor(c, d))), rest) == Xor(a, Xor(b, Xor(c, Xor(d, rest))))
  {
    XorAssociates(a, Xor(b, Xor(c, d)), rest);
    XorAssociates(b, Xor(c, d), rest);
    XorAssociates(c, d, rest);
  }

  lemma XorAssociates(a: bv32, b: bv32, c: bv32)
    ensures Xor(Xor(a, b), c) == Xor(a, Xor(b, c))
  {
    Associates(a, b, c);
  }

  lemma Associates(a: bv32, b: bv32, c: bv32)
    ensures (a ^ b) ^ c == a ^ (b ^ c)
  {
  }

  lemma IndexIsSum(i: bv8)
    ensures Wide(i) == Sum(i, 1, 2, 4, 8, 16, 32, 64, 128)
  {
    Nibbles(i);
    LowNibble(i);
    HighNibble(i);
    XorRegroups(Pick(i & 1 != 0, 1), Pick(i & 2 != 0, 2), Pick(i & 4 != 0, 4), Pick(i & 8 != 0, 8), Wide(i & 0xF0));
  }

  lemma FourDivide(d: bv32 -> bv32, b0: bool, x0: bv32, b1: bool, x1: bv32, b2: bool, x2: bv32, b3: bool, x3: bv32,
                   rest: bv32, sum: bv32)
    requires Linear(d) && Places(d, 0, 8) == 0
    requires sum == Xor(Pick(b0, x0), Xor(Pick(b1, x1), Xor(Pick(b2, x2), Xor(Pick(b3, x3), rest))))
    ensures Places(d, sum, 8)
         == Xor(Pick(b0, Places(d, x0, 8)), Xor(Pick(b1, Places(d, x1, 8)),
            Xor(Pick(b2, Places(d, x2, 8)), Xor(Pick(b3, Places(d, x3, 8)), Places(d, rest, 8)))))
  {
    var r3 := Xor(Pick(b3, x3), rest);
    var r2 := Xor(Pick(b2, x2), r3);
    PickDivides(d, b3, x3, rest);
    PickDivides(d, b2, x2, r3);
    PickDivides(d, b1, x1, r2);
    PickDivides(d, b0, x0, Xor(Pick(b1, x1), r2));
  }

  lemma XorZero(x: bv32)
    ensures Xor(x, 0) == x
  {
  }

  /** The high nibble's share, and nothing else. */
  lemma HighDivide(d: bv32 -> bv32, b0: bool, b1: bool, b2: bool, b3: bool, sum: bv32)
    requires Linear(d) && Places(d, 0, 8) == 0
    requires sum == Xor(Pick(b0, 16), Xor(Pick(b1, 32), Xor(Pick(b2, 64), Pick(b3, 128))))
    ensures Places(d, sum, 8)
         == Xor(Pick(b0, Places(d, 16, 8)), Xor(Pick(b1, Places(d, 32, 8)),
            Xor(Pick(b2, Places(d, 64, 8)), Pick(b3, Places(d, 128, 8)))))
  {
    XorZero(Pick(b3, 128));
    XorZero(Pick(b3, Places(d, 128, 8)));
    FourDivide(d, b0, 16, b1, 32, b2, 64, b3, 128, 0, sum);
  }

  lemma SumDivides(d: bv32 -> bv32, i: bv8)
    requires Linear(d) && Places(d, 0, 8) == 0
    ensures Places(d, Wide(i), 8) == Sum(i, Places(d, 1, 8), Places(d, 2, 8), Places(d, 4, 8), Places(d, 8, 8),
                                         Places(d, 16, 8), Places(d, 32, 8), Places(d, 64, 8), Places(d, 128, 8))
  {
    IndexIsSum(i);
    BitsDivide(d, i & 1 != 0, i & 2 != 0, i & 4 != 0, i & 8 != 0, i & 16 != 0, i & 32 != 0, i & 64 != 0, i & 128 != 0,
               Wide(i));
  }

  lemma BitsDivide(d: bv32 -> bv32, b0: bool, b1: bool, b2: bool, b3: bool, b4: bool, b5: bool, b6: bool, b7: bool,
                   w: bv32)
    requires Linear(d) && Places(d, 0, 8) == 0
    requires w == SumOf(b0, b1, b2, b3, b4, b5, b6, b7, 1, 2, 4, 8, 16, 32, 64, 128)
    ensures Places(d, w, 8) == SumOf(b0, b1, b2, b3, b4, b5, b6, b7,
                                     Places(d, 1, 8), Places(d, 2, 8), Places(d, 4, 8), Places(d, 8, 8),
                                     Places(d, 16, 8), Places(d, 32, 8), Places(d, 64, 8), Places(d, 128, 8))
  {
    var high := Xor(Pick(b4, 16), Xor(Pick(b5, 32), Xor(Pick(b6, 64), Pick(b7, 128))));
    HighDivide(d, b4, b5, b6, b7, high);
    FourDivide(d, b0, 1, b1, 2, b2, 4, b3, 8, high, w);
  }

  /** Every entry of the table is the division of its index by eight places. */
  lemma TableIsDivision(i: bv8)
    ensures CrcTable(i) == Places(Divide, Wide(i), 8)
  {
    DivideLinear();
    Basis();
    SumDivides(Divide, i);
    if i < 0x80 {
      LowerHalf(i);
    } else {
      UpperHalf(i);
    }
  }

  // ---------------------------------------------------------------- a byte at a time

  function LowByte(c: bv32): bv8 { (c & 0xFF) as bv8 }

  function Upper(c: bv32): bv32 { c & 0xFFFFFF00 }

  function Half(c: bv32): bv32 { c >> 1 }

  function Eighth(c: bv32): bv32 { c >> 8 }

  function IsEven(c: bv32): bool { c & 1 == 0 }

  /** `h` meets only values that satisfy `even`, `n` times over. */
  predicate Evens(even: bv32 -> bool, h: bv32 -> bv32, c: bv32, n: nat)
    decreases n
  {
    n == 0 || (even(c) && Evens(even, h, h(c), n - 1))
  }

  lemma {:induction false} ComesDown(d: bv32 -> bv32, even: bv32 -> bool, h: bv32 -> bv32, c: bv32, n: nat)
    requires Evens(even, h, c, n) && forall c {:trigger d(c)} :: even(c) ==> d(c) == h(c)
    ensures Places(d, c, n) == Places(h, c, n)
    decreases n
  {
    if n > 0 {
      assert d(c) == h(c);
      ComesDown(d, even, h, h(c), n - 1);
    }
  }

  lemma EightEvens(even: bv32 -> bool, h: bv32 -> bv32, c: bv32)
    requires even(c) && even(h(c)) && even(h(h(c))) && even(h(h(h(c))))
    requires var c4 := h(h(h(h(c)))); even(c4) && even(h(c4)) && even(h(h(c4))) && even(h(h(h(c4))))
    ensures Evens(even, h, c, 8)
    ensures Places(h, c, 8) == h(h(h(h(h(h(h(h(c))))))))
  {
    var c4 := h(h(h(h(c))));
    assert Evens(even, h, c4, 4) && Places(h, c, 8) == Places(h, c4, 4);
    assert Evens(even, h, h(h(c)), 6);
    assert Places(h, c4, 4) == h(h(h(h(c4))));
  }

  lemma UpperIsEven(c: bv32)
    ensures IsEven(Upper(c))
    ensures IsEven(Half(Upper(c)))
    ensures IsEven(Half(Half(Upper(c))))
    ensures IsEven(Half(Half(Half(Upper(c)))))
    ensures IsEven(Half(Half(Half(Half(Upper(c))))))
    ensures IsEven(Half(Half(Half(Half(Half(Upper(c)))))))
    ensures IsEven(Half(Half(Half(Half(Half(Half(Upper(c))))))))
    ensures IsEven(Half(Half(Half(Half(Half(Half(Half(Upper(c)))))))))
    ensures Half(Half(Half(Half(Half(Half(Half(Half(Upper(c))))))))) == Eighth(c)
  {
  }

  lemma EvenDivides(c: bv32)
    requires IsEven(c)
    ensures Divide(c) == Half(c)
  {
  }

  /** Bits above the lowest eight come down untouched. */
  lemma UpperComesDown(c: bv32)
    ensures Places(Divide, Upper(c), 8) == Eighth(c)
  {
    UpperIsEven(c);
    EightEvens(IsEven, Half, Upper(c));
    forall c | IsEven(c) ensures Divide(c) == Half(c) {
      EvenDivides(c);
    }
    ComesDown(Divide, IsEven, Half, Upper(c), 8);
  }

  // ---- steps
  // The loop's step, whatever divides and whatever table is looked up.

  /** Entry `i` of the table is the division of `i` by eight places. */
  ghost predicate IsTable(d: bv32 -> bv32, table: bv8 -> bv32) {
    forall i {:trigger table(i)} :: table(i) == Places(d, Wide(i), 8)
  }

  ghost predicate UppersComeDown(d: bv32 -> bv32) {
    forall c {:trigger Upper(c)} :: Places(d, Upper(c), 8) == Eighth(c)
  }

  /** What is asked of division for the loop to be right. */
  ghost predicate Divides(d: bv32 -> bv32) {
    Linear(d) && Enters(d) && UppersComeDown(d)
  }

  lemma DivideDivides()
    ensures Divides(Divide)
  {
    DivideLinear();
    DivideShifts();
    BytesEnter(Divide);
    forall c ensures Places(Divide, Upper(c), 8) == Eighth(c) {
      UpperComesDown(c);
    }
  }

  lemma CrcTableIsTable()
    ensures IsTable(Divide, CrcTable)
  {
    forall i ensures CrcTable(i) == Places(Divide, Wide(i), 8) {
      TableIsDivision(i);
    }
  }

  function TableStep(table: bv8 -> bv32, c: bv32, b: bv8): bv32 {
    Xor(table(LowByte(Xor(c, Wide(b)))), Eighth(c))
  }

  lemma Splits(c: bv32)
    ensures c == Xor(Upper(c), Wide(LowByte(c)))
  {
  }

  lemma SameEighth(c: bv32, b: bv8)
    ensures Eighth(Xor(c, Wide(b))) == Eighth(c)
  {
  }

  lemma XorCommutes(x: bv32, y: bv32)
    ensures Xor(x, y) == Xor(y, x)
  {
  }

  lemma StepDivides(d: bv32 -> bv32, table: bv8 -> bv32, c: bv32, b: bv8)
    requires Divides(d) && IsTable(d, table)
    ensures TableStep(table, c, b) == Places(d, Xor(c, Wide(b)), 8)
  {
    SameEighth(c, b);
    StepDividesAt(d, table, Xor(c, Wide(b)));
  }

  lemma StepDividesAt(d: bv32 -> bv32, table: bv8 -> bv32, x: bv32)
    requires Divides(d) && IsTable(d, table)
    ensures Xor(table(LowByte(x)), Eighth(x)) == Places(d, x, 8)
  {
    Splits(x);
    PlacesAreLinear(d, Upper(x), Wide(LowByte(x)), 8);
    XorCommutes(Eighth(x), table(LowByte(x)));
  }

  lemma NothingLeft(b: bv8, x: bv32)
    ensures Xor(x, Wide(ShiftN(b, 8))) == x
  {
    var b4 := Rest(Rest(Rest(Rest(b))));
    assert ShiftN(b, 8) == ShiftN(b4, 4);
    assert ShiftN(b4, 4) == 0;
  }

  /** A step of the loop is the division, bit by bit, of the next byte. */
  lemma StepIsBits(d: bv32 -> bv32, table: bv8 -> bv32, c: bv32, b: bv8)
    requires Divides(d) && IsTable(d, table)
    ensures TableStep(table, c, b) == Divided(d, c, ByteBits(b))
  {
    StepDivides(d, table, c, b);
    BitsEnter(d, c, b, 8);
    NothingLeft(b, Divided(d, c, Bits(b, 8)));
  }

  lemma {:induction false} DividedAppend(d: bv32 -> bv32, c: bv32, s: seq<bool>, t: seq<bool>)
    ensures Divided(d, c, s + t) == Divided(d, Divided(d, c, s), t)
    decreases |s|
  {
    if s == [] {
      assert s + t == t;
    } else {
      DividedAppend(d, d(if s[0] then Xor(c, 1) else c), s[1..], t);
      assert (s + t)[1..] == s[1..] + t;
    }
  }

  lemma {:induction false} AllBitsAppend(bits: bv8 -> seq<bool>, m: seq<bv8>, b: bv8)
    ensures AllBits(bits, m + [b]) == AllBits(bits, m) + bits(b)
    decreases |m|
  {
    if m == [] {
      assert [b][1..] == [] && m + [b] == [b];
    } else {
      AllBitsAppend(bits, m[1..], b);
      assert (m + [b])[1..] == m[1..] + [b];
    }
  }

  lemma RemainderAppend(d: bv32 -> bv32, table: bv8 -> bv32, c: bv32, m: seq<bv8>, b: bv8)
    requires Divides(d) && IsTable(d, table)
    ensures Divided(d, c, AllBits(ByteBits, m + [b])) == TableStep(table, Divided(d, c, AllBits(ByteBits, m)), b)
  {
    StepIsBits(d, table, Divided(d, c, AllBits(ByteBits, m)), b);
    AllBitsAppend(ByteBits, m, b);
    DividedAppend(d, c, AllBits(ByteBits, m), ByteBits(b));
  }

  /** The loop's body: the next byte looks up the table. */
  method NextCrc(crc: bv32, b: bv8, table: bv8 -> bv32, ghost m: seq<bv8>) returns (next: bv32)
    requires IsTable(Divide, table) && crc == Remainder(m)
    ensures next == Remainder(m + [b])
  {
    DivideDivides();
    RemainderAppend(Divide, table, 0xFFFFFFFF, m, b);
    next := TableStep(table, crc, b);
  }

  /** The loop of axend_cal_CRC, with whatever table is right. */
  method CrcLoop(data: seq<bv8>, table: bv8 -> bv32) returns (crc: bv32)
    requires IsTable(Divide, table)
    ensures crc == Remainder(data)
  {
    crc := 0xFFFFFFFF;
    var i := 0;
    while i < |data|
      invariant i <= |data|
      invariant crc == Remainder(data[..i])
    {
      crc := NextCrc(crc, data[i], table, data[..i]);
      assert data[..i + 1] == data[..i] + [data[i]];
      i := i + 1;
    }
    assert data[..|data|] == data;
  }

  /** axend_cal_CRC computes CRC-32; `flag` asks for its complement. */
  method CalCrc(data: seq<bv8>, flag: bool) returns (crc: bv32)
    ensures crc == if flag then !Remainder(data) else Remainder(data)
  {
    CrcTableIsTable();
    crc := CrcLoop(data, CrcTable);
    if flag {
      crc := !crc;
    }
  }

  /** The register after one byte more, by a step that is given. */
  lemma NextByte(d: bv32 -> bv32, table: bv8 -> bv32, m: seq<bv8>, i: nat, c: bv32, next: bv32)
    requires Divides(d) && IsTable(d, table) && i < |m|
    requires Divided(d, 0xFFFFFFFF, AllBits(ByteBits, m[..i])) == c && TableStep(table, c, m[i]) == next
    ensures Divided(d, 0xFFFFFFFF, AllBits(ByteBits, m[..i + 1])) == next
  {
    RemainderAppend(d, table, 0xFFFFFFFF, m[..i], m[i]);
    assert m[..i] + [m[i]] == m[..i + 1];
  }

  /** The digits "123456789". */
  const DIGITS: seq<bv8> := [0x31, 0x32, 0x33, 0x34, 0x35, 0x36, 0x37, 0x38, 0x39]

  lemma Digit1()
    requires Remainder(DIGITS[..0]) == 0xFFFFFFFF
    ensures Remainder(DIGITS[..1]) == 0x7C231048
  {
    CrcTableIsTable();
    DivideDivides();
    NextByte(Divide, CrcTable, DIGITS, 0, 0xFFFFFFFF, 0x7C231048);
  }

  lemma Digit2()
    requires Remainder(DIGITS[..1]) == 0x7C231048
    ensures Remainder(DIGITS[..2]) == 0xB0ACBB32
  {
    CrcTableIsTable();
    DivideDivides();
    NextByte(Divide, CrcTable, DIGITS, 1, 0x7C231048, 0xB0ACBB32);
  }

  lemma Digit3()
    requires Remainder(DIGITS[..2]) == 0xB0ACBB32
    ensures Remainder(DIGITS[..3]) == 0x77B79C2D
  {
    CrcTableIsTable();
    DivideDivides();
    NextByte(Divide, CrcTable, DIGITS, 2, 0xB0ACBB32, 0x77B79C2D);
  }

  lemma Digit4()
    requires Remainder(DIGITS[..3]) == 0x77B79C2D
    ensures Remainder(DIGITS[..4]) == 0x641C1F5C
  {
    CrcTableIsTable();
    DivideDivides();
    NextByte(Divide, CrcTable, DIGITS, 3, 0x77B79C2D, 0x641C1F5C);
  }

  lemma Digit5()
    requires Remainder(DIGITS[..4]) == 0x641C1F5C
    ensures Remainder(DIGITS[..5]) == 0x340AC5E3
  {
    CrcTableIsTable();
    DivideDivides();
    NextByte(Divide, CrcTable, DIGITS, 4, 0x641C1F5C, 0x340AC5E3);
  }

  lemma Digit6()
    requires Remainder(DIGITS[..5]) == 0x340AC5E3
    ensures Remainder(DIGITS[..6]) == 0xF68D2C9E
  {
    CrcTableIsTable();
    DivideDivides();
    NextByte(Divide, CrcTable, DIGITS, 5, 0x340AC5E3, 0xF68D2C9E);
  }

  lemma Digit7()
    requires Remainder(DIGITS[..6]) == 0xF68D2C9E
    ensures Remainder(DIGITS[..7]) == 0xAFFC9660
  {
    CrcTableIsTable();
    DivideDivides();
    NextByte(Divide, CrcTable, DIGITS, 6, 0xF68D2C9E, 0xAFFC9660);
  }

  lemma Digit8()
    requires Remainder(DIGITS[..7]) == 0xAFFC9660
    ensures Remainder(DIGITS[..8]) == 0x651F2550
  {
    CrcTableIsTable();
    DivideDivides();
    NextByte(Divide, CrcTable, DIGITS, 7, 0xAFFC9660, 0x651F2550);
  }

  lemma Digit9()
    requires Remainder(DIGITS[..8]) == 0x651F2550
    ensures Remainder(DIGITS[..9]) == 0x340BC6D9
  {
    CrcTableIsTable();
    DivideDivides();
    NextByte(Divide, CrcTable, DIGITS, 8, 0x651F2550, 0x340BC6D9);
  }

  /** The check value of CRC-32: on the nine digits the register is left as the complement of CBF43926. */
  lemma CheckValue()
    ensures !Remainder(DIGITS) == 0xCBF43926
  {
    assert DIGITS[..0] == [] && DIGITS[..9] == DIGITS;
    Digit1();
    Digit2();
    Digit3();
    Digit4();
    Digit5();
    Digit6();
    Digit7();
    Digit8();
    Digit9();
  }

  // ---------------------------------------------------------------- what it detects

  /** Takes back a division. */
  function Multiply(c: bv32): bv32 {
    if c >> 31 == 1 then ((c ^ POLY) << 1) | 1 else c << 1
  }

  ghost predicate Undoes(u: bv32 -> bv32, d: bv32 -> bv32) {
    forall c {:trigger d(c)} :: u(d(c)) == c
  }

  lemma OddMultiply(c: bv32)
    requires c & 1 == 1
    ensures Multiply((c >> 1) ^ POLY) == c
  {
  }

  lemma EvenMultiply(c: bv32)
    requires c & 1 != 1
    ensures Multiply(c >> 1) == c
  {
  }

  lemma MultiplyUndoes()
    ensures Undoes(Multiply, Divide)
  {
    forall c ensures Multiply(Divide(c)) == c {
      if c & 1 == 1 {
        OddMultiply(c);
      } else {
        EvenMultiply(c);
      }
    }
  }

  lemma XorCancels(x: bv32, y: bv32, z: bv32)
    ensures Xor(x, z) == Xor(y, z) ==> x == y
    ensures Xor(z, x) == Xor(z, y) ==> x == y
  {
  }

  lemma {:induction false} DividedInjective(u: bv32 -> bv32, d: bv32 -> bv32, x: bv32, y: bv32, bits: seq<bool>)
    requires Undoes(u, d) && Divided(d, x, bits) == Divided(d, y, bits)
    ensures x == y
    decreases |bits|
  {
    if bits != [] {
      var x1, y1 := if bits[0] then Xor(x, 1) else x, if bits[0] then Xor(y, 1) else y;
      DividedInjective(u, d, d(x1), d(y1), bits[1..]);
      assert u(d(x1)) == x1 && u(d(y1)) == y1;
      XorCancels(x, y, 1);
    }
  }

  lemma {:induction false} PlacesInjective(u: bv32 -> bv32, d: bv32 -> bv32, x: bv32, y: bv32, n: nat)
    requires Undoes(u, d) && Places(d, x, n) == Places(d, y, n)
    ensures x == y
    decreases n
  {
    if n > 0 {
      PlacesInjective(u, d, d(x), d(y), n - 1);
      assert u(d(x)) == x && u(d(y)) == y;
    }
  }

  lemma WideInjective(a: bv8, b: bv8)
    ensures Wide(a) == Wide(b) ==> a == b
  {
  }

  lemma BytesDiffer(d: bv32 -> bv32, u: bv32 -> bv32, c: bv32, a: bv8, b: bv8)
    requires Divides(d) && Undoes(u, d) && Divided(d, c, ByteBits(a)) == Divided(d, c, ByteBits(b))
    ensures a == b
  {
    BitsEnter(d, c, a, 8);
    BitsEnter(d, c, b, 8);
    NothingLeft(a, Divided(d, c, ByteBits(a)));
    NothingLeft(b, Divided(d, c, ByteBits(b)));
    PlacesInjective(u, d, Xor(c, Wide(a)), Xor(c, Wide(b)), 8);
    XorCancels(Wide(a), Wide(b), c);
    WideInjective(a, b);
  }

  lemma {:induction false} AllBitsConcat(bits: bv8 -> seq<bool>, m: seq<bv8>, n: seq<bv8>)
    ensures AllBits(bits, m + n) == AllBits(bits, m) + AllBits(bits, n)
    decreases |n|
  {
    if n == [] {
      assert m + n == m;
    } else {
      AllBitsAppend(bits, m, n[0]);
      AllBitsConcat(bits, m + [n[0]], n[1..]);
      assert m + [n[0]] + n[1..] == m + n;
    }
  }

  lemma Framed(d: bv32 -> bv32, c: bv32, before: seq<bv8>, b: bv8, after: seq<bv8>)
    ensures Divided(d, c, AllBits(ByteBits, before + [b] + after))
         == Divided(d, Divided(d, Divided(d, c, AllBits(ByteBits, before)), ByteBits(b)), AllBits(ByteBits, after))
  {
    AllBitsConcat(ByteBits, before + [b], after);
    AllBitsAppend(ByteBits, before, b);
    DividedAppend(d, c, AllBits(ByteBits, before + [b]), AllBits(ByteBits, after));
    DividedAppend(d, c, AllBits(ByteBits, before), ByteBits(b));
  }

  /** Two messages that differ in one byte have different CRCs. */
  lemma DetectsByte(before: seq<bv8>, a: bv8, b: bv8, after: seq<bv8>)
    requires a != b
    ensures Remainder(before + [a] + after) != Remainder(before + [b] + after)
  {
    var c := Divided(Divide, 0xFFFFFFFF, AllBits(ByteBits, before));
    Framed(Divide, 0xFFFFFFFF, before, a, after);
    Framed(Divide, 0xFFFFFFFF, before, b, after);
    DivideDivides();
    MultiplyUndoes();
    if Remainder(before + [a] + after) == Remainder(before + [b] + after) {
      DividedInjective(Multiply, Divide, Divided(Divide, c, ByteBits(a)), Divided(Divide, c, ByteBits(b)), AllBits(ByteBits, after));
      BytesDiffer(Divide, Multiply, c, a, b);
    }
  }
}
