/** What holds of the tables of FIPS 46-3 beyond their entries: two of the criteria by which its boxes were
    chosen, and that the key schedule uses every bit of the key and ends where it began. */
module DesCriteria {
  import opened DesPermute
  import opened DesTables
  import opened DesFips
  import opened DesSchedule

  // ---------------------------------------------------------------- every row is a permutation

  /** The column in which a row of a box has the value `v`. */
  function Column(box: nat, row: nat, v: nat): nat {
    if box == 0 then
      if row == 0 then Row16(v, 14,  3,  4,  8,  1, 12, 10, 15,  7, 13,  9,  6, 11,  2,  0,  5)
      else if row == 1 then Row16(v,  0,  7,  5, 14,  3, 13,  9,  2, 15, 12,  8, 11, 10,  6,  4,  1)
      else if row == 2 then Row16(v, 15,  1,  6, 12,  0, 14,  5, 11,  3, 10, 13,  7,  9,  4,  2,  8)
      else Row16(v, 13,  6,  3, 10,  4,  8, 14,  7,  2,  5, 12,  9,  1, 15, 11,  0)
    else if box == 1 then
      if row == 0 then Row16(v, 13,  1, 10,  6,  7, 14,  4,  9,  2,  8, 15,  5, 12, 11,  3,  0)
      else if row == 1 then Row16(v,  9, 10,  5,  0,  2, 15, 12,  3,  6, 13, 11, 14,  8,  1,  7,  4)
      else if row == 2 then Row16(v,  0,  7, 14, 13,  5,  8, 11,  2,  9, 12,  4,  3, 10,  6,  1, 15)
      else Row16(v, 12,  3,  7,  4,  6, 13,  9, 10,  1, 15,  2,  8, 11,  0, 14,  5)
    else if box == 2 then
      if row == 0 then Row16(v,  1,  8, 14,  5, 13,  7,  4, 11, 15,  2,  0, 12, 10,  9,  3,  6)
      else if row == 1 then Row16(v,  2, 15,  8,  4,  5, 10,  6,  1,  9,  3,  7, 13, 12,  0, 11, 14)
      else if row == 2 then Row16(v,  7,  9, 10,  6,  2, 12,  1, 15,  4,  3, 13,  8, 11,  0, 14,  5)
      else Row16(v,  3,  0, 14, 11,  8, 13,  4,  7,  6,  5,  1, 12, 15,  2, 10,  9)
    else if box == 3 then
      if row == 0 then Row16(v,  4,  8,  9,  3, 14, 11,  5,  0, 10,  6,  7, 12, 13,  1,  2, 15)
      else if row == 1 then Row16(v,  6, 12, 10,  7,  8,  3,  4,  9,  1, 15, 13,  2, 11,  0, 14,  5)
      else if row == 2 then Row16(v,  3,  9, 13, 10, 15, 12,  1,  6, 14,  2,  0,  5,  4,  7, 11,  8)
      else Row16(v,  2,  5, 14,  0,  9, 10,  3, 13,  7,  8,  4, 11, 12,  6, 15,  1)
    else if box == 4 then
      if row == 0 then Row16(v, 13,  3,  0, 10,  2,  9,  7,  4,  8, 15,  5,  6,  1, 12, 14, 11)
      else if row == 1 then Row16(v,  9,  7,  2, 12,  4,  8, 15,  5, 14, 13, 11,  1,  3,  6,  0, 10)
      else if row == 2 then Row16(v, 14,  2,  1, 13,  0, 11, 12,  6,  7,  9,  4,  3, 10,  5, 15,  8)
      else Row16(v, 10,  4,  6, 15, 13, 14,  8,  3,  1, 11, 12,  0,  2,  7,  5,  9)
    else if box == 5 then
      if row == 0 then Row16(v,  8,  1,  5, 10, 11, 14,  6, 13,  7,  4,  2, 15,  0,  9, 12,  3)
      else if row == 1 then Row16(v, 12,  9,  3, 14,  2,  7,  8,  4, 15,  6,  0, 13,  5, 10, 11,  1)
      else if row == 2 then Row16(v,  9, 12,  4,  7, 10,  3, 15,  8,  5,  0, 11, 14,  6, 13,  1,  2)
      else Row16(v, 13, 10,  2,  1,  0,  5, 12, 11, 14,  4,  7,  8,  3, 15,  9,  6)
    else if box == 6 then
      if row == 0 then Row16(v,  5, 15,  2,  8,  0, 12, 14, 11,  6, 10, 13,  1,  9,  7,  3,  4)
      else if row == 1 then Row16(v,  1,  6, 12,  9,  4, 10, 15,  3, 14,  5,  7,  2, 11,  0,  8, 13)
      else if row == 2 then Row16(v, 12,  0, 15,  5,  1, 13, 10,  6, 11, 14,  8,  2,  4,  3,  7,  9)
      else Row16(v, 10,  4, 13, 14,  5,  9,  0,  7,  3,  8,  6,  1, 15,  2, 12, 11)
    else
      if row == 0 then Row16(v, 13,  7,  1, 10,  3, 12,  4, 15,  2,  9,  8,  6, 14,  0, 11,  5)
      else if row == 1 then Row16(v, 12,  0, 15,  5,  7,  9, 10,  6,  3, 14,  4, 11,  8,  2, 13,  1)
      else if row == 2 then Row16(v,  8,  3,  7, 13,  2, 14,  9,  0, 15,  4, 10,  1,  5, 11,  6, 12)
      else Row16(v, 11,  1,  0, 12,  4, 13, 14,  3,  6, 10,  5, 15,  9,  7,  2,  8)
  }

  lemma Columns0(row: nat, c: nat)
    requires row < 4 && c < 16
    ensures Column(0, row, S(0, 16 * row + c)) == c
  {}

  lemma Columns1(row: nat, c: nat)
    requires row < 4 && c < 16
    ensures Column(1, row, S(1, 16 * row + c)) == c
  {}

  lemma Columns2(row: nat, c: nat)
    requires row < 4 && c < 16
    ensures Column(2, row, S(2, 16 * row + c)) == c
  {}

  lemma Columns3(row: nat, c: nat)
    requires row < 4 && c < 16
    ensures Column(3, row, S(3, 16 * row + c)) == c
  {}

  lemma Columns4(row: nat, c: nat)
    requires row < 4 && c < 16
    ensures Column(4, row, S(4, 16 * row + c)) == c
  {}

  lemma Columns5(row: nat, c: nat)
    requires row < 4 && c < 16
    ensures Column(5, row, S(5, 16 * row + c)) == c
  {}

  lemma Columns6(row: nat, c: nat)
    requires row < 4 && c < 16
    ensures Column(6, row, S(6, 16 * row + c)) == c
  {}

  lemma Columns7(row: nat, c: nat)
    requires row < 4 && c < 16
    ensures Column(7, row, S(7, 16 * row + c)) == c
  {}

  lemma ColumnFinds(box: nat, row: nat, c: nat)
    requires box < 8 && row < 4 && c < 16
    ensures Column(box, row, S(box, 16 * row + c)) == c
  {
    if box == 0 {
      Columns0(row, c);
    } else if box == 1 {
      Columns1(row, c);
    } else if box == 2 {
      Columns2(row, c);
    } else if box == 3 {
      Columns3(row, c);
    } else if box == 4 {
      Columns4(row, c);
    } else if box == 5 {
      Columns5(row, c);
    } else if box == 6 {
      Columns6(row, c);
    } else {
      Columns7(row, c);
    }
  }

  /** The values of a row, with their column. */
  function Row(box: nat, row: nat): (s: seq<nat>)
    requires box < 8 && row < 4
    ensures |s| == 16 && forall c {:trigger s[c]} | 0 <= c < 16 :: s[c] == S(box, 16 * row + c)
  {
    seq<nat>(16, c requires 0 <= c < 16 => S(box, 16 * row + c))
  }

  ghost function Elements(s: seq<nat>): set<nat> {
    if s == [] then {} else Elements(s[1..]) + {s[0]}
  }

  ghost predicate Distinct(s: seq<nat>) {
    s == [] || (s[0] !in s[1..] && Distinct(s[1..]))
  }

  ghost function Below(n: nat): set<nat> {
    if n == 0 then {} else Below(n - 1) + {n - 1}
  }

  lemma {:induction false} ElementsAre(s: seq<nat>, v: nat)
    ensures v in Elements(s) <==> v in s
  {
    if s != [] {
      ElementsAre(s[1..], v);
    }
  }

  lemma {:induction false} CountElements(s: seq<nat>)
    requires Distinct(s)
    ensures |Elements(s)| == |s|
  {
    if s != [] {
      CountElements(s[1..]);
      ElementsAre(s[1..], s[0]);
    }
  }

  lemma {:induction false} CountBelow(n: nat, v: nat)
    ensures |Below(n)| == n && (v in Below(n) <==> v < n)
  {
    if n > 0 {
      CountBelow(n - 1, v);
      CountBelow(n - 1, n - 1);
    }
  }

  lemma {:induction false} IsDistinct(s: seq<nat>)
    requires forall i, j | 0 <= i < j < |s| :: s[i] != s[j]
    ensures Distinct(s)
  {
    if s != [] {
      IsDistinct(s[1..]);
    }
  }

  /** `n` different numbers below `n` are all of them. */
  lemma AllBelow(s: seq<nat>, v: nat)
    requires Distinct(s) && (forall i | 0 <= i < |s| :: s[i] < |s|) && v < |s|
    ensures v in s
  {
    var held, below := Elements(s), Below(|s|);
    forall u | u in held ensures u in below {
      ElementsAre(s, u);
      CountBelow(|s|, u);
    }
    CountElements(s);
    CountBelow(|s|, v);
    ElementsAre(s, v);
    if v !in held {
      assert held <= below - {v};
      Subset(held, below - {v});
    }
  }

  lemma {:induction false} Subset(a: set<nat>, b: set<nat>)
    requires a <= b
    ensures |a| <= |b|
  {
    if v :| v in a {
      Subset(a - {v}, b - {v});
    }
  }

  /** Every row of every box has each of the numbers 0 to 15, once. */
  lemma RowsArePermutations(box: nat, row: nat)
    requires box < 8 && row < 4
    ensures forall v: nat | v < 16 :: v in Row(box, row)
    ensures Distinct(Row(box, row))
  {
    var s := Row(box, row);
    forall c, d | 0 <= c < d < 16 ensures s[c] != s[d] {
      ColumnFinds(box, row, c);
      ColumnFinds(box, row, d);
    }
    IsDistinct(s);
    forall v: nat | v < 16 ensures v in s {
      AllBelow(s, v);
    }
  }

  // ---------------------------------------------------------------- one bit in, two bits out

  /** `b` is neither `a` nor `a` with one of its four bits changed. */
  predicate Far(a: nat, b: nat) {
    && b != a && b != Row16(a, 1, 0, 3, 2, 5, 4, 7, 6, 9, 8, 11, 10, 13, 12, 15, 14)
    && b != Row16(a, 2, 3, 0, 1, 6, 7, 4, 5, 10, 11, 8, 9, 14, 15, 12, 13)
    && b != Row16(a, 4, 5, 6, 7, 0, 1, 2, 3, 12, 13, 14, 15, 8, 9, 10, 11)
    && b != Row16(a, 8, 9, 10, 11, 12, 13, 14, 15, 0, 1, 2, 3, 4, 5, 6, 7)
  }

  lemma Far1In0(row: nat, c: nat)
    requires row < 4 && c < 16 && c % 2 == 0
    ensures Far(S(0, 16 * row + c), S(0, 16 * row + c + 1))
  {}

  lemma Far2In0(row: nat, c: nat)
    requires row < 4 && c < 16 && c % 4 < 2
    ensures Far(S(0, 16 * row + c), S(0, 16 * row + c + 2))
  {}

  lemma Far4In0(row: nat, c: nat)
    requires row < 4 && c < 16 && c % 8 < 4
    ensures Far(S(0, 16 * row + c), S(0, 16 * row + c + 4))
  {}

  lemma Far8In0(row: nat, c: nat)
    requires row < 4 && c < 16 && c < 8
    ensures Far(S(0, 16 * row + c), S(0, 16 * row + c + 8))
  {}

  lemma Far16In0(row: nat, c: nat)
    requires row < 4 && c < 16 && row % 2 == 0
    ensures Far(S(0, 16 * row + c), S(0, 16 * row + c + 16))
  {}

  lemma Far32In0(row: nat, c: nat)
    requires row < 4 && c < 16 && row < 2
    ensures Far(S(0, 16 * row + c), S(0, 16 * row + c + 32))
  {}

  lemma Far1In1(row: nat, c: nat)
    requires row < 4 && c < 16 && c % 2 == 0
    ensures Far(S(1, 16 * row + c), S(1, 16 * row + c + 1))
  {}

  lemma Far2In1(row: nat, c: nat)
    requires row < 4 && c < 16 && c % 4 < 2
    ensures Far(S(1, 16 * row + c), S(1, 16 * row + c + 2))
  {}

  lemma Far4In1(row: nat, c: nat)
    requires row < 4 && c < 16 && c % 8 < 4
    ensures Far(S(1, 16 * row + c), S(1, 16 * row + c + 4))
  {}

  lemma Far8In1(row: nat, c: nat)
    requires row < 4 && c < 16 && c < 8
    ensures Far(S(1, 16 * row + c), S(1, 16 * row + c + 8))
  {}

  lemma Far16In1(row: nat, c: nat)
    requires row < 4 && c < 16 && row % 2 == 0
    ensures Far(S(1, 16 * row + c), S(1, 16 * row + c + 16))
  {}

  lemma Far32In1(row: nat, c: nat)
    requires row < 4 && c < 16 && row < 2
    ensures Far(S(1, 16 * row + c), S(1, 16 * row + c + 32))
  {}

  lemma Far1In2(row: nat, c: nat)
    requires row < 4 && c < 16 && c % 2 == 0
    ensures Far(S(2, 16 * row + c), S(2, 16 * row + c + 1))
  {}

  lemma Far2In2(row: nat, c: nat)
    requires row < 4 && c < 16 && c % 4 < 2
    ensures Far(S(2, 16 * row + c), S(2, 16 * row + c + 2))
  {}

  lemma Far4In2(row: nat, c: nat)
    requires row < 4 && c < 16 && c % 8 < 4
    ensures Far(S(2, 16 * row + c), S(2, 16 * row + c + 4))
  {}

  lemma Far8In2(row: nat, c: nat)
    requires row < 4 && c < 16 && c < 8
    ensures Far(S(2, 16 * row + c), S(2, 16 * row + c + 8))
  {}

  lemma Far16In2(row: nat, c: nat)
    requires row < 4 && c < 16 && row % 2 == 0
    ensures Far(S(2, 16 * row + c), S(2, 16 * row + c + 16))
  {}

  lemma Far32In2(row: nat, c: nat)
    requires row < 4 && c < 16 && row < 2
    ensures Far(S(2, 16 * row + c), S(2, 16 * row + c + 32))
  {}

  lemma Far1In3(row: nat, c: nat)
    requires row < 4 && c < 16 && c % 2 == 0
    ensures Far(S(3, 16 * row + c), S(3, 16 * row + c + 1))
  {}

  lemma Far2In3(row: nat, c: nat)
    requires row < 4 && c < 16 && c % 4 < 2
    ensures Far(S(3, 16 * row + c), S(3, 16 * row + c + 2))
  {}

  lemma Far4In3(row: nat, c: nat)
    requires row < 4 && c < 16 && c % 8 < 4
    ensures Far(S(3, 16 * row + c), S(3, 16 * row + c + 4))
  {}

  lemma Far8In3(row: nat, c: nat)
    requires row < 4 && c < 16 && c < 8
    ensures Far(S(3, 16 * row + c), S(3, 16 * row + c + 8))
  {}

  lemma Far16In3(row: nat, c: nat)
    requires row < 4 && c < 16 && row % 2 == 0
    ensures Far(S(3, 16 * row + c), S(3, 16 * row + c + 16))
  {}

  lemma Far32In3(row: nat, c: nat)
    requires row < 4 && c < 16 && row < 2
    ensures Far(S(3, 16 * row + c), S(3, 16 * row + c + 32))
  {}

  lemma Far1In4(row: nat, c: nat)
    requires row < 4 && c < 16 && c % 2 == 0
    ensures Far(S(4, 16 * row + c), S(4, 16 * row + c + 1))
  {}

  lemma Far2In4(row: nat, c: nat)
    requires row < 4 && c < 16 && c % 4 < 2
    ensures Far(S(4, 16 * row + c), S(4, 16 * row + c + 2))
  {}

  lemma Far4In4(row: nat, c: nat)
    requires row < 4 && c < 16 && c % 8 < 4
    ensures Far(S(4, 16 * row + c), S(4, 16 * row + c + 4))
  {}

  lemma Far8In4(row: nat, c: nat)
    requires row < 4 && c < 16 && c < 8
    ensures Far(S(4, 16 * row + c), S(4, 16 * row + c + 8))
  {}

  lemma Far16In4(row: nat, c: nat)
    requires row < 4 && c < 16 && row % 2 == 0
    ensures Far(S(4, 16 * row + c), S(4, 16 * row + c + 16))
  {}

  lemma Far32In4(row: nat, c: nat)
    requires row < 4 && c < 16 && row < 2
    ensures Far(S(4, 16 * row + c), S(4, 16 * row + c + 32))
  {}

  lemma Far1In5(row: nat, c: nat)
    requires row < 4 && c < 16 && c % 2 == 0
    ensures Far(S(5, 16 * row + c), S(5, 16 * row + c + 1))
  {}

  lemma Far2In5(row: nat, c: nat)
    requires row < 4 && c < 16 && c % 4 < 2
    ensures Far(S(5, 16 * row + c), S(5, 16 * row + c + 2))
  {}

  lemma Far4In5(row: nat, c: nat)
    requires row < 4 && c < 16 && c % 8 < 4
    ensures Far(S(5, 16 * row + c), S(5, 16 * row + c + 4))
  {}

  lemma Far8In5(row: nat, c: nat)
    requires row < 4 && c < 16 && c < 8
    ensures Far(S(5, 16 * row + c), S(5, 16 * row + c + 8))
  {}

  lemma Far16In5(row: nat, c: nat)
    requires row < 4 && c < 16 && row % 2 == 0
    ensures Far(S(5, 16 * row + c), S(5, 16 * row + c + 16))
  {}

  lemma Far32In5(row: nat, c: nat)
    requires row < 4 && c < 16 && row < 2
    ensures Far(S(5, 16 * row + c), S(5, 16 * row + c + 32))
  {}

  lemma Far1In6(row: nat, c: nat)
    requires row < 4 && c < 16 && c % 2 == 0
    ensures Far(S(6, 16 * row + c), S(6, 16 * row + c + 1))
  {}

  lemma Far2In6(row: nat, c: nat)
    requires row < 4 && c < 16 && c % 4 < 2
    ensures Far(S(6, 16 * row + c), S(6, 16 * row + c + 2))
  {}

  lemma Far4In6(row: nat, c: nat)
    requires row < 4 && c < 16 && c % 8 < 4
    ensures Far(S(6, 16 * row + c), S(6, 16 * row + c + 4))
  {}

  lemma Far8In6(row: nat, c: nat)
    requires row < 4 && c < 16 && c < 8
    ensures Far(S(6, 16 * row + c), S(6, 16 * row + c + 8))
  {}

  lemma Far16In6(row: nat, c: nat)
    requires row < 4 && c < 16 && row % 2 == 0
    ensures Far(S(6, 16 * row + c), S(6, 16 * row + c + 16))
  {}

  lemma Far32In6(row: nat, c: nat)
    requires row < 4 && c < 16 && row < 2
    ensures Far(S(6, 16 * row + c), S(6, 16 * row + c + 32))
  {}

  lemma Far1In7(row: nat, c: nat)
    requires row < 4 && c < 16 && c % 2 == 0
    ensures Far(S(7, 16 * row + c), S(7, 16 * row + c + 1))
  {}

  lemma Far2In7(row: nat, c: nat)
    requires row < 4 && c < 16 && c % 4 < 2
    ensures Far(S(7, 16 * row + c), S(7, 16 * row + c + 2))
  {}

  lemma Far4In7(row: nat, c: nat)
    requires row < 4 && c < 16 && c % 8 < 4
    ensures Far(S(7, 16 * row + c), S(7, 16 * row + c + 4))
  {}

  lemma Far8In7(row: nat, c: nat)
    requires row < 4 && c < 16 && c < 8
    ensures Far(S(7, 16 * row + c), S(7, 16 * row + c + 8))
  {}

  lemma Far16In7(row: nat, c: nat)
    requires row < 4 && c < 16 && row % 2 == 0
    ensures Far(S(7, 16 * row + c), S(7, 16 * row + c + 16))
  {}

  lemma Far32In7(row: nat, c: nat)
    requires row < 4 && c < 16 && row < 2
    ensures Far(S(7, 16 * row + c), S(7, 16 * row + c + 32))
  {}

  lemma Far1(box: nat, row: nat, c: nat)
    requires box < 8 && row < 4 && c < 16 && c % 2 == 0
    ensures Far(S(box, 16 * row + c), S(box, 16 * row + c + 1))
  {
    if box == 0 {
      Far1In0(row, c);
    } else if box == 1 {
      Far1In1(row, c);
    } else if box == 2 {
      Far1In2(row, c);
    } else if box == 3 {
      Far1In3(row, c);
    } else if box == 4 {
      Far1In4(row, c);
    } else if box == 5 {
      Far1In5(row, c);
    } else if box == 6 {
      Far1In6(row, c);
    } else {
      Far1In7(row, c);
    }
  }

  lemma Far2(box: nat, row: nat, c: nat)
    requires box < 8 && row < 4 && c < 16 && c % 4 < 2
    ensures Far(S(box, 16 * row + c), S(box, 16 * row + c + 2))
  {
    if box == 0 {
      Far2In0(row, c);
    } else if box == 1 {
      Far2In1(row, c);
    } else if box == 2 {
      Far2In2(row, c);
    } else if box == 3 {
      Far2In3(row, c);
    } else if box == 4 {
      Far2In4(row, c);
    } else if box == 5 {
      Far2In5(row, c);
    } else if box == 6 {
      Far2In6(row, c);
    } else {
      Far2In7(row, c);
    }
  }

  lemma Far4(box: nat, row: nat, c: nat)
    requires box < 8 && row < 4 && c < 16 && c % 8 < 4
    ensures Far(S(box, 16 * row + c), S(box, 16 * row + c + 4))
  {
    if box == 0 {
      Far4In0(row, c);
    } else if box == 1 {
      Far4In1(row, c);
    } else if box == 2 {
      Far4In2(row, c);
    } else if box == 3 {
      Far4In3(row, c);
    } else if box == 4 {
      Far4In4(row, c);
    } else if box == 5 {
      Far4In5(row, c);
    } else if box == 6 {
      Far4In6(row, c);
    } else {
      Far4In7(row, c);
    }
  }

  lemma Far8(box: nat, row: nat, c: nat)
    requires box < 8 && row < 4 && c < 16 && c < 8
    ensures Far(S(box, 16 * row + c), S(box, 16 * row + c + 8))
  {
    if box == 0 {
      Far8In0(row, c);
    } else if box == 1 {
      Far8In1(row, c);
    } else if box == 2 {
      Far8In2(row, c);
    } else if box == 3 {
      Far8In3(row, c);
    } else if box == 4 {
      Far8In4(row, c);
    } else if box == 5 {
      Far8In5(row, c);
    } else if box == 6 {
      Far8In6(row, c);
    } else {
      Far8In7(row, c);
    }
  }

  lemma Far16(box: nat, row: nat, c: nat)
    requires box < 8 && row < 4 && c < 16 && row % 2 == 0
    ensures Far(S(box, 16 * row + c), S(box, 16 * row + c + 16))
  {
    if box == 0 {
      Far16In0(row, c);
    } else if box == 1 {
      Far16In1(row, c);
    } else if box == 2 {
      Far16In2(row, c);
    } else if box == 3 {
      Far16In3(row, c);
    } else if box == 4 {
      Far16In4(row, c);
    } else if box == 5 {
      Far16In5(row, c);
    } else if box == 6 {
      Far16In6(row, c);
    } else {
      Far16In7(row, c);
    }
  }

  lemma Far32(box: nat, row: nat, c: nat)
    requires box < 8 && row < 4 && c < 16 && row < 2
    ensures Far(S(box, 16 * row + c), S(box, 16 * row + c + 32))
  {
    if box == 0 {
      Far32In0(row, c);
    } else if box == 1 {
      Far32In1(row, c);
    } else if box == 2 {
      Far32In2(row, c);
    } else if box == 3 {
      Far32In3(row, c);
    } else if box == 4 {
      Far32In4(row, c);
    } else if box == 5 {
      Far32In5(row, c);
    } else if box == 6 {
      Far32In6(row, c);
    } else {
      Far32In7(row, c);
    }
  }


  lemma Doubled(a: nat, i: nat)
    ensures a == 2 * (a / 2) + AsNat(Bit(a, 0)) && Bit(a, i + 1) == Bit(a / 2, i)
  {
  }

  lemma FourBits(a: nat)
    requires a < 16
    ensures a == 8 * AsNat(Bit(a, 3)) + 4 * AsNat(Bit(a, 2)) + 2 * AsNat(Bit(a, 1)) + AsNat(Bit(a, 0))
  {
    Doubled(a, 0);
    Doubled(a, 1);
    Doubled(a, 2);
    Doubled(a / 2, 0);
    Doubled(a / 2, 1);
    Doubled(a / 2 / 2, 0);
    assert a / 2 / 2 / 2 < 2;
    assert Bit(a / 2 / 2 / 2, 0) == (a / 2 / 2 / 2 == 1);
  }

  /** How many of four bits are different. */
  function Differing(a: nat, b: nat): nat {
    AsNat(Bit(a, 3) != Bit(b, 3)) + AsNat(Bit(a, 2) != Bit(b, 2)) + AsNat(Bit(a, 1) != Bit(b, 1))
      + AsNat(Bit(a, 0) != Bit(b, 0))
  }

  /** `a` with one bit changed. */
  function Changed(a: nat, k: nat, weight: nat): int {
    if Bit(a, k) then a - weight else a + weight
  }

  lemma ChangedByTable(a: nat)
    requires a < 16
    ensures Row16(a, 1, 0, 3, 2, 5, 4, 7, 6, 9, 8, 11, 10, 13, 12, 15, 14) == Changed(a, 0, 1)
    ensures Row16(a, 2, 3, 0, 1, 6, 7, 4, 5, 10, 11, 8, 9, 14, 15, 12, 13) == Changed(a, 1, 2)
    ensures Row16(a, 4, 5, 6, 7, 0, 1, 2, 3, 12, 13, 14, 15, 8, 9, 10, 11) == Changed(a, 2, 4)
    ensures Row16(a, 8, 9, 10, 11, 12, 13, 14, 15, 0, 1, 2, 3, 4, 5, 6, 7) == Changed(a, 3, 8)
  {
    FourBits(a);
  }

  lemma FarDiffers(a: nat, b: nat)
    requires a < 16 && b < 16 && Far(a, b)
    ensures Differing(a, b) >= 2
  {
    FourBits(a);
    FourBits(b);
    ChangedByTable(a);
  }

  /** The row and column that six bits select. */
  ghost predicate Selects(x: Key48, g: nat, row: nat, c: nat)
    requires g < 8
  {
    && row == 2 * AsNat(x[6 * g]) + AsNat(x[6 * g + 5])
    && c == 8 * AsNat(x[6 * g + 1]) + 4 * AsNat(x[6 * g + 2]) + 2 * AsNat(x[6 * g + 3]) + AsNat(x[6 * g + 4])
  }

  lemma Raised0(x: Key48, y: Key48, g: nat, row: nat, c: nat)
    requires g < 8 && !x[6 * g] && y == x[6 * g := true] && Selects(x, g, row, c)
    ensures Far(S(g, BoxIndex(x, g)), S(g, BoxIndex(y, g)))
  {
    assert BoxIndex(x, g) == 16 * row + c && BoxIndex(y, g) == 16 * row + c + 32;
    Far32(g, row, c);
  }

  lemma Raised1(x: Key48, y: Key48, g: nat, row: nat, c: nat)
    requires g < 8 && !x[6 * g + 1] && y == x[6 * g + 1 := true] && Selects(x, g, row, c)
    ensures Far(S(g, BoxIndex(x, g)), S(g, BoxIndex(y, g)))
  {
    assert BoxIndex(x, g) == 16 * row + c && BoxIndex(y, g) == 16 * row + c + 8;
    Far8(g, row, c);
  }

  lemma Raised2(x: Key48, y: Key48, g: nat, row: nat, c: nat)
    requires g < 8 && !x[6 * g + 2] && y == x[6 * g + 2 := true] && Selects(x, g, row, c)
    ensures Far(S(g, BoxIndex(x, g)), S(g, BoxIndex(y, g)))
  {
    assert BoxIndex(x, g) == 16 * row + c && BoxIndex(y, g) == 16 * row + c + 4;
    Far4(g, row, c);
  }

  lemma Raised3(x: Key48, y: Key48, g: nat, row: nat, c: nat)
    requires g < 8 && !x[6 * g + 3] && y == x[6 * g + 3 := true] && Selects(x, g, row, c)
    ensures Far(S(g, BoxIndex(x, g)), S(g, BoxIndex(y, g)))
  {
    assert BoxIndex(x, g) == 16 * row + c && BoxIndex(y, g) == 16 * row + c + 2;
    Far2(g, row, c);
  }

  lemma Raised4(x: Key48, y: Key48, g: nat, row: nat, c: nat)
    requires g < 8 && !x[6 * g + 4] && y == x[6 * g + 4 := true] && Selects(x, g, row, c)
    ensures Far(S(g, BoxIndex(x, g)), S(g, BoxIndex(y, g)))
  {
    assert BoxIndex(x, g) == 16 * row + c && BoxIndex(y, g) == 16 * row + c + 1;
    Far1(g, row, c);
  }

  lemma Raised5(x: Key48, y: Key48, g: nat, row: nat, c: nat)
    requires g < 8 && !x[6 * g + 5] && y == x[6 * g + 5 := true] && Selects(x, g, row, c)
    ensures Far(S(g, BoxIndex(x, g)), S(g, BoxIndex(y, g)))
  {
    assert BoxIndex(x, g) == 16 * row + c && BoxIndex(y, g) == 16 * row + c + 16;
    Far16(g, row, c);
  }

  /** The entries for inputs of which one bit, now 0, becomes 1. */
  lemma RaisedBit(x: Key48, y: Key48, g: nat, t: nat)
    requires g < 8 && t < 6 && !x[6 * g + t] && y == x[6 * g + t := true]
    ensures Far(S(g, BoxIndex(x, g)), S(g, BoxIndex(y, g)))
  {
    var row := 2 * AsNat(x[6 * g]) + AsNat(x[6 * g + 5]);
    var c := 8 * AsNat(x[6 * g + 1]) + 4 * AsNat(x[6 * g + 2]) + 2 * AsNat(x[6 * g + 3]) + AsNat(x[6 * g + 4]);
    if t == 0 {
      Raised0(x, y, g, row, c);
    } else if t == 1 {
      Raised1(x, y, g, row, c);
    } else if t == 2 {
      Raised2(x, y, g, row, c);
    } else if t == 3 {
      Raised3(x, y, g, row, c);
    } else if t == 4 {
      Raised4(x, y, g, row, c);
    } else {
      Raised5(x, y, g, row, c);
    }
  }

  lemma ChangedBit(x: Key48, k: nat)
    requires k < 48
    ensures Differing(S(k / 6, BoxIndex(x, k / 6)), S(k / 6, BoxIndex(x[k := !x[k]], k / 6))) >= 2
  {
    var y, g := x[k := !x[k]], k / 6;
    assert 6 * g + k % 6 == k;
    var a, b := S(g, BoxIndex(x, g)), S(g, BoxIndex(y, g));
    if x[k] {
      assert x == y[k := true];
      RaisedBit(y, x, g, k % 6);
      FarDiffers(b, a);
    } else {
      RaisedBit(x, y, g, k % 6);
      FarDiffers(a, b);
    }
  }

  lemma OtherBoxes(x: Key48, k: nat, b: bool, g: nat)
    requires k < 48 && g < 8 && g != k / 6
    ensures BoxIndex(x[k := b], g) == BoxIndex(x, g)
  {
    assert k == 6 * (k / 6) + k % 6;
  }

  /** How many of the four bits of box `g` are different. */
  function DifferingAt(s: Half, t: Half, g: nat): nat
    requires g < 8
  {
    AsNat(s[4 * g] != t[4 * g]) + AsNat(s[4 * g + 1] != t[4 * g + 1]) + AsNat(s[4 * g + 2] != t[4 * g + 2])
      + AsNat(s[4 * g + 3] != t[4 * g + 3])
  }

  /** The bits of box `g` are those of the number `v`. */
  ghost predicate Holds(s: Half, g: nat, v: nat)
    requires g < 8
  {
    s[4 * g] == Bit(v, 3) && s[4 * g + 1] == Bit(v, 2) && s[4 * g + 2] == Bit(v, 1) && s[4 * g + 3] == Bit(v, 0)
  }

  lemma BoxHolds(x: Key48, g: nat, v: nat)
    requires g < 8 && v == S(g, BoxIndex(x, g))
    ensures Holds(Substitute(x), g, v)
  {
    BoxBit(x, g, 0, v);
    BoxBit(x, g, 1, v);
    BoxBit(x, g, 2, v);
    BoxBit(x, g, 3, v);
  }

  lemma BoxBit(x: Key48, g: nat, b: nat, v: nat)
    requires g < 8 && b < 4 && v == S(g, BoxIndex(x, g))
    ensures Substitute(x)[4 * g + b] == Bit(v, 3 - b)
  {
    assert (4 * g + b) / 4 == g && (4 * g + b) % 4 == b;
  }

  lemma CountBits(s: Half, t: Half, g: nat, v: nat, w: nat)
    requires g < 8 && Holds(s, g, v) && Holds(t, g, w)
    ensures DifferingAt(s, t, g) == Differing(v, w)
  {
  }

  /** Whatever the 48 bits, changing one of them changes at least two of the four bits that its box gives,
      and no others. */
  lemma OneBitInTwoBitsOut(x: Key48, k: nat)
    requires k < 48
    ensures var s, t := Substitute(x), Substitute(x[k := !x[k]]);
      DifferingAt(s, t, k / 6) >= 2 && forall q | 0 <= q < 32 && q / 4 != k / 6 :: s[q] == t[q]
  {
    var y, g := x[k := !x[k]], k / 6;
    var v, w := S(g, BoxIndex(x, g)), S(g, BoxIndex(y, g));
    BoxHolds(x, g, v);
    BoxHolds(y, g, w);
    CountBits(Substitute(x), Substitute(y), g, v, w);
    ChangedBit(x, k);
    forall q | 0 <= q < 32 && q / 4 != g ensures Substitute(x)[q] == Substitute(y)[q] {
      OtherBoxes(x, k, !x[k], q / 4);
    }
  }

  // ---------------------------------------------------------------- the salt

  /** A salt with one bit exchanges two bits and leaves the others; one with all 24 exchanges the halves. */
  lemma SaltExchanges(x: Key48, salt: nat, i: nat)
    requires i < 24
    ensures (forall k | 0 <= k < 24 :: Bit(salt, k) == (k == i)) ==>
              SaltSwap(x, salt) == x[i := x[i + 24]][i + 24 := x[i]]
    ensures (forall k | 0 <= k < 24 :: Bit(salt, k)) ==> SaltSwap(x, salt) == x[24..] + x[..24]
  {
    var y := SaltSwap(x, salt);
    if forall k | 0 <= k < 24 :: Bit(salt, k) == (k == i) {
      var z := x[i := x[i + 24]][i + 24 := x[i]];
      assert forall j | 0 <= j < 48 :: y[j] == z[j];
    }
    if forall k | 0 <= k < 24 :: Bit(salt, k) {
      assert forall j | 0 <= j < 48 :: y[j] == (x[24..] + x[..24])[j];
    }
  }

  // ---------------------------------------------------------------- the key schedule

  /** Where PC1 puts bit `v` of the key, counted from 1. */
  function Pc1Place(v: nat): int
    requires 1 <= v <= 64
  {
    var byte, bit := (v - 1) / 8, (v - 1) % 8;
    if bit < 3 || (bit == 3 && byte >= 4) then 8 * bit + 7 - byte
    else if bit == 3 then 55 - byte
    else 28 + 8 * (6 - bit) + 7 - byte
  }

  lemma Pc1TakesC(j: nat)
    requires j < 28
    ensures PC1(j) % 8 != 0 && Pc1Place(PC1(j)) == j
  {
  }

  lemma Pc1TakesD(j: nat)
    requires 28 <= j < 56
    ensures PC1(j) % 8 != 0 && Pc1Place(PC1(j)) == j
  {
  }

  lemma Pc1Finds(v: nat)
    requires 1 <= v <= 64 && v % 8 != 0
    ensures 0 <= Pc1Place(v) < 56 && PC1(Pc1Place(v)) == v
  {
  }

  /** PC1 takes every bit of the key but the eight parity bits, the last of each byte, exactly once. */
  lemma EveryKeyBitIsUsed(v: nat)
    requires 1 <= v <= 64
    ensures v % 8 != 0 <==> exists j: nat :: j < 56 && PC1(j) == v
    ensures forall i: nat, j: nat | i < 56 && j < 56 && PC1(i) == v && PC1(j) == v :: i == j
  {
    if v % 8 != 0 {
      Pc1Finds(v);
      var j: nat := Pc1Place(v);
      assert PC1(j) == v;
    }
    forall j: nat | j < 56 && PC1(j) == v ensures v % 8 != 0 && Pc1Place(v) == j {
      if j < 28 {
        Pc1TakesC(j);
      } else {
        Pc1TakesD(j);
      }
    }
  }

  /** How far the halves are rotated by the end of round `i`. */
  function Total(i: nat): nat
    requires i < 16
  {
    (if i == 0 then 0 else Total(i - 1)) + Rotates(i)
  }

  lemma FromTwice(j: nat, r: nat, s: nat)
    requires j < 56
    ensures RotFrom(RotFrom(j, s), r) == RotFrom(j, r + s)
  {
    ModTwice(if j < 28 then j + s else j - 28 + s, r);
  }

  lemma RotationsAdd(cd: Key56, r: nat, s: nat)
    ensures RotateLeft(RotateLeft(cd, r), s) == RotateLeft(cd, r + s)
  {
    forall j | 0 <= j < 56 ensures RotFrom(RotFrom(j, s), r) == RotFrom(j, r + s) {
      FromTwice(j, r, s);
    }
  }

  lemma ModTwice(a: nat, r: nat)
    ensures (a % 28 + r) % 28 == (a + r) % 28
  {
    assert a == 28 * (a / 28) + a % 28;
  }

  lemma {:induction false} CDIsRotated(key: Block, i: nat)
    requires i < 16
    ensures CD(key, i) == RotateLeft(FirstCD(key), Total(i))
  {
    if i > 0 {
      CDIsRotated(key, i - 1);
      NextIsRotated(key, i, Total(i - 1));
    }
  }

  lemma NextIsRotated(key: Block, i: nat, t: nat)
    requires 0 < i < 16 && CD(key, i - 1) == RotateLeft(FirstCD(key), t)
    ensures CD(key, i) == RotateLeft(FirstCD(key), t + Rotates(i))
  {
    NextCD(key, i);
    RotationsAdd(FirstCD(key), t, Rotates(i));
  }

  lemma FullTurn(cd: Key56)
    ensures RotateLeft(cd, 28) == cd
  {
    forall j | 0 <= j < 56 ensures RotFrom(j, 28) == j {
    }
  }

  lemma TotalIs28()
    ensures Total(15) == 28
  {
    assert Total(3) == 6 && Total(7) == 14 && Total(11) == 21;
  }

  /** After sixteen rounds both halves of the key are back where PC1 put them. */
  lemma HalvesReturn(key: Block)
    ensures CD(key, 15) == FirstCD(key)
  {
    CDIsRotated(key, 15);
    TotalIs28();
    FullTurn(FirstCD(key));
  }

}
