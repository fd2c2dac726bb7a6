/** Literal tables of byte remainders, and how a table of 32 rows of eight words is checked: by its
    first row, its powers of two, and sums. */
module CrcTable {
  import opened Gf2
  import opened Word
  import opened CrcCode
  import opened CrcWord

  /** Word w is the right entry for index j. */
  ghost predicate Tabled(c: Code, j: nat, w: uint32) {
    Val(w) == TableValue(c, j)
  }

  lemma TabledDouble(c: Code, j: nat, w: uint32, s: uint32)
    requires c.Valid() && Tabled(c, j, w) && Timed(c, w, s)
    ensures Tabled(c, 2 * j, s)
  {
    hide Val, Xor, Shl;
    ModBelow(c, Shl(j, c.degree));
    TableDouble(c, j);
  }

  lemma TabledSum(c: Code, r: nat, k: nat, l: nat, v: uint32, w: uint32)
    requires c.Valid() && l < Shl(1, k) && Tabled(c, Shl(r, k), v) && Tabled(c, l, w)
    ensures Tabled(c, Shl(r, k) + l, Plus(v, w))
  {
    hide Val, Xor, Shl, Plus, TableValue;
    ValPlus(v, w);
    TableSum(c, r, l, k);
  }

  /** The first row of a table, and the first entry of the second. */
  ghost predicate FirstRow(c: Code, t: seq<uint32>) {
    |t| == 9 && forall l | 0 <= l < 9 :: Tabled(c, l, t[l])
  }

  /** The powers of two in the first row come one from the other, the rest are their sums. */
  ghost predicate Doubling(t: seq<uint32>, low: uint32, top: uint32)
    requires |t| == 9
  {
    && StepBy(low, top, t[1]) == t[2] && StepBy(low, top, t[2]) == t[4] && StepBy(low, top, t[4]) == t[8]
    && t[3] == Plus(t[2], t[1]) && t[5] == Plus(t[4], t[1])
    && t[6] == Plus(t[4], t[2]) && t[7] == Plus(t[4], t[3])
  }

  lemma FirstRowTabled(c: Code, t: seq<uint32>, low: uint32, top: uint32)
    requires c.Valid() && |t| == 9 && t[0] == 0 && Val(t[1]) == Xor(c.Top(), c.poly)
    requires Doubling(t, low, top) && Times(c, low, top)
    ensures FirstRow(c, t)
  {
    hide Timed, Plus, TableValue, Xor, Shl, Mul, StepBy;
    TableOne(c);
    ValZero();
    hide Tabled, Val;
    ShlNibble(1);
    TabledDouble(c, 1, t[1], t[2]);
    TabledDouble(c, 2, t[2], t[4]);
    TabledDouble(c, 4, t[4], t[8]);
    TabledSum(c, 1, 1, 1, t[2], t[1]);
    TabledSum(c, 1, 2, 1, t[4], t[1]);
    TabledSum(c, 1, 2, 2, t[4], t[2]);
    TabledSum(c, 1, 2, 3, t[4], t[3]);
  }

  /** Entry l of a row is its first entry plus entry l of the first row. */
  lemma TabledInRow(c: Code, t: seq<uint32>, r: nat, l: nat, first: uint32)
    requires c.Valid() && FirstRow(c, t) && l < 8 && Tabled(c, 8 * r, first)
    ensures Tabled(c, 8 * r + l, Plus(first, t[l]))
  {
    hide Tabled, Plus;
    ShlNibble(1);
    ShlNibble(r);
    TabledSum(c, r, 3, l, first, t[l]);
  }

  /** The first entries of rows 2q and 2q + 1. */
  lemma TabledFirsts(c: Code, t: seq<uint32>, q: nat, first: uint32, even: uint32)
    requires c.Valid() && FirstRow(c, t) && Tabled(c, 8 * q, first) && Timed(c, first, even)
    ensures Tabled(c, 16 * q, even) && Tabled(c, 16 * q + 8, Plus(even, t[8]))
  {
    hide Tabled, Timed, Plus;
    TabledDouble(c, 8 * q, first, even);
    ShlNibble(1);
    ShlNibble(q);
    TabledSum(c, q, 4, 8, even, t[8]);
  }

  // ----- the whole table

  /** A row is its first entry plus the first row. */
  function Fan(t: seq<uint32>, first: uint32): seq<uint32>
    requires |t| == 9
  {
    [first, Plus(first, t[1]), Plus(first, t[2]), Plus(first, t[3]),
     Plus(first, t[4]), Plus(first, t[5]), Plus(first, t[6]), Plus(first, t[7])]
  }

  /** The first entries of rows 2q and 2q + 1 come from that of row q. */
  ghost predicate FirstsDouble(row: nat -> seq<uint32>, t: seq<uint32>, low: uint32, top: uint32, q: nat)
    requires |t| == 9
  {
    |row(q)| == |row(2 * q)| == |row(2 * q + 1)| == 8 &&
    row(2 * q)[0] == StepBy(low, top, row(q)[0]) && row(2 * q + 1)[0] == Plus(row(2 * q)[0], t[8])
  }

  /** What the literals of a table are checked for. */
  ghost predicate Regular(row: nat -> seq<uint32>, t: seq<uint32>, low: uint32, top: uint32) {
    && |t| == 9 && Doubling(t, low, top) && |row(0)| == 8 && row(0)[0] == t[0] == 0
    && (forall r: nat | r < 32 :: |row(r)| == 8 && row(r) == Fan(t, row(r)[0]))
    && forall q: nat | q < 16 :: FirstsDouble(row, t, low, top, q)
  }

  lemma {:induction false} TabledFirst(c: Code, row: nat -> seq<uint32>, t: seq<uint32>,
                                       low: uint32, top: uint32, r: nat)
    requires c.Valid() && Regular(row, t, low, top) && Times(c, low, top) && FirstRow(c, t) && r < 32
    ensures |row(r)| == 8 && Tabled(c, 8 * r, row(r)[0])
  {
    hide Tabled, Timed, Plus, Fan, Doubling, StepBy;
    if r > 0 {
      var q := r / 2;
      TabledFirst(c, row, t, low, top, q);
      assert FirstsDouble(row, t, low, top, q) && Timed(c, row(q)[0], StepBy(low, top, row(q)[0]));
      TabledFirsts(c, t, q, row(q)[0], row(2 * q)[0]);
      assert r == 2 * q || r == 2 * q + 1;
    }
  }

  /** Every entry of a regular table is the right one. */
  lemma RegularTabled(c: Code, row: nat -> seq<uint32>, t: seq<uint32>,
                      low: uint32, top: uint32, r: nat, l: nat)
    requires c.Valid() && Regular(row, t, low, top) && Times(c, low, top) && Val(t[1]) == Xor(c.Top(), c.poly)
    requires r < 32 && l < 8
    ensures |row(r)| == 8 && Tabled(c, 8 * r + l, row(r)[l])
  {
    hide Tabled, Timed, Plus, Doubling, FirstsDouble, Xor, Shl, Mul, Val, TableValue, StepBy;
    FirstRowTabled(c, t, low, top);
    TabledFirst(c, row, t, low, top, r);
    if l > 0 { TabledInRow(c, t, r, l, row(r)[0]); }
  }
}
