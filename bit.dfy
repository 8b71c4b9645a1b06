/**
 * One-word bit rows and a grid of them (library/src/strct/bit.rs).  A `BitRow` is a
 * value; a `BitGrid` is an object whose `rows` the operators update in place.
 * Cell `(i, j)` of the grid is bit `j` of row `i`.
 */
module StrctBit {
  import opened Words = Bits
  import Ij

  /** `BitRow::NUM_BITS`. */
  const NUM_BITS: nat := WORD_BITS

  /** One row of bits. */
  datatype BitRow = BitRow(bits: Word)

  /** `new` and `default`: no bit set. */
  function RowNew(): (r: BitRow)
    ensures forall i :: 0 <= i < NUM_BITS ==> !RowGet(r, i)
    ensures RowCountOnes(r) == 0
  {
    var r := BitRow(Zero());
    CountTrueNot(NotW(r.bits), r.bits);
    r
  }

  /** `get`: `(bits >> i) & 1 == 1`. */
  function RowGet(r: BitRow, i: nat): (b: bool)
    requires i < NUM_BITS
    ensures b == r.bits[i]
  {
    TestBit(r.bits, i)
  }

  /** `set`, in mask form: clear bit `i`, then OR in `b as u64` shifted to position `i`. */
  function RowSet(r: BitRow, i: nat, b: bool): (q: BitRow)
    requires i < NUM_BITS
    ensures RowGet(q, i) == b
    ensures forall k :: 0 <= k < NUM_BITS && k != i ==> RowGet(q, k) == RowGet(r, k)
  {
    SingleBit(i);
    BitRow(OrW(AndW(r.bits, NotW(Shl(One(), i))), Shl(FromBool(b), i)))
  }

  /** `count_ones`: the number of set positions. */
  function RowCountOnes(r: BitRow): (n: nat)
    ensures n <= NUM_BITS
    ensures n == |set i: nat | i < NUM_BITS && RowGet(r, i)|
  {
    CountTrueIsCardinality(r.bits);
    assert Ones(r.bits) == set i: nat | i < NUM_BITS && RowGet(r, i);
    PopCount(r.bits)
  }

  /** `&` and `&=`. */
  function RowAnd(a: BitRow, b: BitRow): (r: BitRow)
    ensures forall i :: 0 <= i < NUM_BITS ==> RowGet(r, i) == (RowGet(a, i) && RowGet(b, i))
  {
    BitRow(AndW(a.bits, b.bits))
  }

  /** `|` and `|=`. */
  function RowOr(a: BitRow, b: BitRow): (r: BitRow)
    ensures forall i :: 0 <= i < NUM_BITS ==> RowGet(r, i) == (RowGet(a, i) || RowGet(b, i))
  {
    BitRow(OrW(a.bits, b.bits))
  }

  /** `!`, over all 64 bits. */
  function RowNot(a: BitRow): (r: BitRow)
    ensures forall i :: 0 <= i < NUM_BITS ==> RowGet(r, i) == !RowGet(a, i)
    ensures RowCountOnes(r) == NUM_BITS - RowCountOnes(a)
  {
    var r := BitRow(NotW(a.bits));
    CountTrueNot(a.bits, r.bits);
    r
  }

  /** The mask form of `BitRow::set` computes the same word as the branching form of `Bits::set`. */
  lemma RowSetAgreesWithBitsSet(x: Word, i: nat, b: bool)
    requires i < NUM_BITS
    ensures RowSet(BitRow(x), i, b).bits == Words.Set(Bits(x), i, b).bits
  {
    var p, q := RowSet(BitRow(x), i, b).bits, Words.Set(Bits(x), i, b).bits;
    forall k | 0 <= k < NUM_BITS
      ensures p[k] == q[k]
    {
      assert p[k] == RowGet(RowSet(BitRow(x), i, b), k);
      assert q[k] == Words.Get(Words.Set(Bits(x), i, b), k);
    }
  }

  /**
   * The inner loop of `from_grid`: starting from an empty row, bit `j` is set to
   * the `j`-th cell of the grid row.  The source asserts `row.len() == c.w`, and
   * `set` needs every column below 64.
   */
  method RowFromCells(cells: seq<bool>) returns (bits: BitRow)
    requires |cells| <= NUM_BITS
    ensures forall j :: 0 <= j < |cells| ==> RowGet(bits, j) == cells[j]
    ensures forall j :: |cells| <= j < NUM_BITS ==> !RowGet(bits, j)
  {
    bits := RowNew();
    for j := 0 to |cells|
      invariant forall k :: 0 <= k < j ==> RowGet(bits, k) == cells[k]
      invariant forall k :: j <= k < NUM_BITS ==> !RowGet(bits, k)
    {
      bits := RowSet(bits, j, cells[j]);
    }
  }

  /** Whether index `p` is set in `rows` for a grid `w` columns wide, as `BitGrid::get` reads it. */
  ghost predicate Readable(w: nat, rows: seq<BitRow>, p: nat)
  {
    w > 0 && p / w < |rows| && p % w < NUM_BITS
  }

  function CellOf(w: nat, rows: seq<BitRow>, p: nat): bool
    requires w > 0 && p / w < |rows| && p % w < NUM_BITS
  {
    var i: nat, j: nat := p / w, p % w;
    RowGet(rows[i], j)
  }

  /** The set cells among the first `j` columns of a row whose first cell has index `base`, left to right. */
  ghost function RowPoints(row: BitRow, base: nat, j: nat): seq<Ij.IJ>
    requires j <= NUM_BITS
  {
    if j == 0 then []
    else RowPoints(row, base, j - 1) + (if RowGet(row, j - 1) then [Ij.IJ(base + j - 1)] else [])
  }

  /** The set cells of the first `i` rows, in row-major order. */
  ghost function GridPoints(w: nat, rows: seq<BitRow>, i: nat): seq<Ij.IJ>
    requires i <= |rows| && w <= NUM_BITS
  {
    if i == 0 then [] else GridPoints(w, rows, i - 1) + RowPoints(rows[i - 1], (i - 1) * w, w)
  }

  /** Indices in the same row and the same column are equal. */
  lemma SamePair(w: nat, p: nat, q: nat)
    requires w > 0 && p / w == q / w && p % w == q % w
    ensures p == q
  {
    assert p == (p / w) * w + p % w;
    assert q == (q / w) * w + q % w;
  }

  /** Writing bit `j` of row `i` leaves every readable cell of another row or column as it was. */
  lemma SetFrame(w: nat, rows: seq<BitRow>, i: nat, j: nat, b: bool, q: nat)
    requires i < |rows| && j < NUM_BITS
    requires Readable(w, rows, q) && (q / w != i || q % w != j)
    ensures var rows' := rows[i := RowSet(rows[i], j, b)];
      Readable(w, rows', q) && CellOf(w, rows', q) == CellOf(w, rows, q)
  {
  }

  /** One step of the row-major scan: the cell at row `i`, column `j` is bit `j` of row `i`. */
  lemma ScanStep(c: Ij.IJSize, rows: seq<BitRow>, i: nat, j: nat)
    requires j < c.w <= NUM_BITS && i < |rows|
    ensures Ij.Unchecked(c, i, j).index == i * c.w + j
    ensures (i * c.w + j) / c.w == i && (i * c.w + j) % c.w == j
    ensures CellOf(c.w, rows, i * c.w + j) == RowGet(rows[i], j)
    ensures RowPoints(rows[i], i * c.w, j + 1) ==
      RowPoints(rows[i], i * c.w, j) + (if CellOf(c.w, rows, i * c.w + j) then [Ij.Unchecked(c, i, j)] else [])
  {
    Ij.DivMod(i, j, c.w);
  }

  /** A row's listing holds the set columns below `j` of that row, ascending. */
  lemma {:induction false} RowPointsExact(row: BitRow, base: nat, j: nat)
    requires j <= NUM_BITS
    ensures Ij.Ascending(RowPoints(row, base, j))
    ensures forall q :: q in RowPoints(row, base, j) ==> base <= q.index < base + j
    ensures forall k :: 0 <= k < j ==> (Ij.IJ(base + k) in RowPoints(row, base, j) <==> RowGet(row, k))
  {
    if j > 0 {
      RowPointsExact(row, base, j - 1);
    }
  }

  /** The listing of the first `i` rows holds exactly their set cells, ascending. */
  lemma {:induction false} GridPointsExact(w: nat, rows: seq<BitRow>, i: nat)
    requires 0 < w <= NUM_BITS && i <= |rows|
    ensures Ij.Ascending(GridPoints(w, rows, i))
    ensures forall q :: q in GridPoints(w, rows, i) ==> q.index < i * w
    ensures forall p :: 0 <= p < i * w ==>
      (Readable(w, rows, p) && (Ij.IJ(p) in GridPoints(w, rows, i) <==> CellOf(w, rows, p)))
  {
    if i > 0 {
      var lo := (i - 1) * w;
      var prev, row := GridPoints(w, rows, i - 1), RowPoints(rows[i - 1], lo, w);
      GridPointsExact(w, rows, i - 1);
      RowPointsExact(rows[i - 1], lo, w);
      assert lo + w == i * w;
      Ij.AscendingConcat(prev, row, lo);
      forall p | 0 <= p < i * w
        ensures Readable(w, rows, p) && (Ij.IJ(p) in prev + row <==> CellOf(w, rows, p))
      {
        if p >= lo {
          LastRowCell(w, rows, i - 1, lo, p, prev, row);
        } else {
          assert Ij.IJ(p) !in row;
        }
      }
    }
  }

  /** A cell of the last listed row is found in that row's listing, not in the earlier rows'. */
  lemma LastRowCell(w: nat, rows: seq<BitRow>, i: nat, lo: nat, p: nat, prev: seq<Ij.IJ>, row: seq<Ij.IJ>)
    requires 0 < w <= NUM_BITS && i < |rows| && lo == i * w
    requires lo <= p < lo + w
    requires forall q :: q in prev ==> q.index < lo
    requires forall k :: 0 <= k < w ==> (Ij.IJ(lo + k) in row <==> RowGet(rows[i], k))
    ensures Readable(w, rows, p) && (Ij.IJ(p) in prev + row <==> CellOf(w, rows, p))
  {
    var k := p - lo;
    ScanStep(Ij.IJSize(w, |rows|), rows, i, k);
    assert Ij.IJ(p) !in prev;
  }

  /** The grid's listing holds exactly the readable set cells below `h * w`; with no columns it is empty. */
  lemma GridPointsMembership(w: nat, rows: seq<BitRow>, h: nat)
    requires w <= NUM_BITS && h <= |rows|
    ensures Ij.Ascending(GridPoints(w, rows, h))
    ensures forall q :: q in GridPoints(w, rows, h) <==>
      q.index < h * w && Readable(w, rows, q.index) && CellOf(w, rows, q.index)
  {
    if w > 0 {
      GridPointsExact(w, rows, h);
    } else {
      NoColumns(rows, h);
    }
  }

  lemma {:induction false} NoColumns(rows: seq<BitRow>, i: nat)
    requires i <= |rows|
    ensures GridPoints(0, rows, i) == []
  {
    if i > 0 {
      NoColumns(rows, i - 1);
    }
  }

  /** A grid of bit rows. */
  class BitGrid {
    const c: Ij.IJSize
    var rows: seq<BitRow>

    /** `new_zero`: `h` empty rows; the source asserts `c.w < 64`. */
    constructor NewZero(c: Ij.IJSize)
      requires c.w < NUM_BITS
      ensures this.c == c
      ensures rows == seq(c.h, _ => RowNew())
    {
      this.c := c;
      rows := seq(c.h, _ => RowNew());
    }

    /**
     * `from_grid`: row `i` holds the cells of grid row `i`; rows the grid does not
     * supply stay empty.  The source asserts each row has `c.w` cells, indexes
     * `rows[i]` (at most `c.h` rows) and shifts by the column (below 64).
     */
    constructor FromGrid(c: Ij.IJSize, cells: seq<seq<bool>>)
      requires |cells| <= c.h && c.w <= NUM_BITS
      requires forall i :: 0 <= i < |cells| ==> |cells[i]| == c.w
      ensures this.c == c
      ensures |rows| == c.h
      ensures forall i, j :: 0 <= i < |cells| && 0 <= j < c.w ==> RowGet(rows[i], j) == cells[i][j]
      ensures forall i, j :: 0 <= i < c.h && 0 <= j < NUM_BITS && (i >= |cells| || j >= c.w) ==> !RowGet(rows[i], j)
    {
      var res := seq(c.h, _ => RowNew());
      for i := 0 to |cells|
        invariant |res| == c.h
        invariant forall k, j :: 0 <= k < i && 0 <= j < c.w ==> RowGet(res[k], j) == cells[k][j]
        invariant forall k, j :: 0 <= k < c.h && 0 <= j < NUM_BITS && (k >= i || j >= c.w) ==> !RowGet(res[k], j)
      {
        var bits := RowFromCells(cells[i]);
        res := res[i := bits];
      }
      this.c := c;
      rows := res;
    }

    /** Whether `BitGrid::get` can read index `p` without panicking. */
    ghost predicate CanRead(p: Ij.IJ)
      reads this
    {
      Readable(c.w, rows, p.index)
    }

    /** `get`: bit `j` of row `i`, where `(i, j) = to_pair(p)`. */
    function Get(p: Ij.IJ): (r: bool)
      reads this
      requires c.w > 0 && p.index / c.w < |rows| && p.index % c.w < NUM_BITS
      ensures r == RowGet(rows[Ij.ToPair(p, c).0], Ij.ToPair(p, c).1)
    {
      CellOf(c.w, rows, p.index)
    }

    /** `set`: only bit `j` of row `i` changes, where `(i, j) = to_pair(p)`. */
    method Set(p: Ij.IJ, b: bool)
      requires c.w > 0 && p.index / c.w < |rows| && p.index % c.w < NUM_BITS
      modifies this
      ensures rows == old(rows)[p.index / c.w := RowSet(old(rows)[p.index / c.w], p.index % c.w, b)]
      ensures Get(p) == b
      ensures forall q: Ij.IJ :: CanRead(q) && q != p ==> Get(q) == old(Get(q))
    {
      var i, j := p.index / c.w, p.index % c.w;
      rows := rows[i := RowSet(rows[i], j, b)];
      forall q: Ij.IJ | CanRead(q) && q != p
        ensures Get(q) == old(Get(q))
      {
        if q.index / c.w == i && q.index % c.w == j {
          SamePair(c.w, p.index, q.index);
        }
        SetFrame(c.w, old(rows), i, j, b, q.index);
      }
    }

    /** The set cells of the grid, in row-major order. */
    ghost function Points(): seq<Ij.IJ>
      reads this
      requires c.h <= |rows| && c.w <= NUM_BITS
    {
      GridPoints(c.w, rows, c.h)
    }

    /** `compute_points`: every in-grid index whose bit is set, in ascending order. */
    method ComputePoints() returns (points: seq<Ij.IJ>)
      requires c.h <= |rows| && c.w <= NUM_BITS
      ensures points == Points()
      ensures Ij.Ascending(points)
      ensures forall q :: q in points <==> q.index < Ij.Size(c) && CanRead(q) && Get(q)
    {
      points := [];
      for i := 0 to c.h
        invariant points == GridPoints(c.w, rows, i)
      {
        points := ScanRow(i, points);
      }
      GridPointsMembership(c.w, rows, c.h);
    }

    /** The inner loop of `compute_points`: the set cells of row `i`, appended to `points` left to right. */
    method ScanRow(i: nat, points: seq<Ij.IJ>) returns (r: seq<Ij.IJ>)
      requires i < |rows| && c.w <= NUM_BITS
      ensures r == points + RowPoints(rows[i], i * c.w, c.w)
    {
      r := points;
      var base := i * c.w;
      for j := 0 to c.w
        invariant r == points + RowPoints(rows[i], base, j)
      {
        var pos := Ij.Unchecked(c, i, j);
        ScanStep(c, rows, i, j);
        if Get(pos) {
          ghost var row := RowPoints(rows[i], base, j);
          assert (points + row) + [pos] == points + (row + [pos]);
          r := r + [pos];
        }
      }
    }

    /** `count_ones`: the sum of the rows' counts. */
    function CountOnes(): (n: nat)
      reads this
      ensures n <= NUM_BITS * |rows|
      ensures c.w <= NUM_BITS && Clean(c.w, rows) ==> n <= c.w * |rows|
    {
      CleanCountBound(rows, c.w);
      SumCounts(rows)
    }

    /** `&=`: the sizes must agree; rows are combined pairwise over the shorter of the two lists. */
    method AndAssign(other: BitGrid)
      requires other != this
      requires c == other.c
      modifies this
      ensures |rows| == |old(rows)|
      ensures forall k :: 0 <= k < |rows| ==>
        rows[k] == if k < |other.rows| then RowAnd(old(rows)[k], other.rows[k]) else old(rows)[k]
    {
      var n := if |rows| < |other.rows| then |rows| else |other.rows|;
      for k := 0 to n
        invariant |rows| == |old(rows)|
        invariant forall m :: 0 <= m < |rows| ==>
          rows[m] == if m < k then RowAnd(old(rows)[m], other.rows[m]) else old(rows)[m]
      {
        rows := rows[k := RowAnd(rows[k], other.rows[k])];
      }
    }

    /** `|=`: as `&=`, with OR. */
    method OrAssign(other: BitGrid)
      requires other != this
      requires c == other.c
      modifies this
      ensures |rows| == |old(rows)|
      ensures forall k :: 0 <= k < |rows| ==>
        rows[k] == if k < |other.rows| then RowOr(old(rows)[k], other.rows[k]) else old(rows)[k]
    {
      var n := if |rows| < |other.rows| then |rows| else |other.rows|;
      for k := 0 to n
        invariant |rows| == |old(rows)|
        invariant forall m :: 0 <= m < |rows| ==>
          rows[m] == if m < k then RowOr(old(rows)[m], other.rows[m]) else old(rows)[m]
      {
        rows := rows[k := RowOr(rows[k], other.rows[k])];
      }
    }

    /** `!`: every row is complemented over all 64 bits, including the columns at or beyond `w`. */
    method Not()
      modifies this
      ensures |rows| == |old(rows)|
      ensures forall k :: 0 <= k < |rows| ==> rows[k] == RowNot(old(rows)[k])
      ensures CountOnes() == NUM_BITS * |rows| - old(CountOnes())
    {
      for k := 0 to |rows|
        invariant |rows| == |old(rows)|
        invariant forall m :: 0 <= m < |rows| ==> rows[m] == if m < k then RowNot(old(rows)[m]) else old(rows)[m]
      {
        rows := rows[k := RowNot(rows[k])];
      }
      SumCountsNot(old(rows), rows);
    }

    /**
     * `!` as the grid's own cells call for: the cells flip and the padding bits
     * at and beyond column `w` stay clear, so on a grid with clear padding the
     * count becomes the number of cells minus the old count.
     */
    method NotWithin()
      requires c.w <= NUM_BITS
      modifies this
      ensures |rows| == |old(rows)|
      ensures forall k :: 0 <= k < |rows| ==> rows[k] == RowNotWithin(old(rows)[k], c.w)
      ensures Clean(c.w, rows)
      ensures Clean(c.w, old(rows)) ==> CountOnes() == c.w * |rows| - old(CountOnes())
    {
      for k := 0 to |rows|
        invariant |rows| == |old(rows)|
        invariant forall m :: 0 <= m < |rows| ==> rows[m] == if m < k then RowNotWithin(old(rows)[m], c.w) else old(rows)[m]
      {
        rows := rows[k := RowNotWithin(rows[k], c.w)];
      }
      if Clean(c.w, old(rows)) {
        SumCountsNotWithin(old(rows), rows, c.w);
      }
    }
  }

  /** The total count of a list of rows. */
  function SumCounts(rows: seq<BitRow>): (n: nat)
    ensures n <= NUM_BITS * |rows|
  {
    if |rows| == 0 then 0 else SumCounts(rows[..|rows| - 1]) + RowCountOnes(rows[|rows| - 1])
  }

  /** Complementing every row turns the total count into its complement. */
  lemma {:induction false} SumCountsNot(rows: seq<BitRow>, flipped: seq<BitRow>)
    requires |flipped| == |rows|
    requires forall k :: 0 <= k < |rows| ==> flipped[k] == RowNot(rows[k])
    ensures SumCounts(flipped) == NUM_BITS * |rows| - SumCounts(rows)
  {
    if |rows| > 0 {
      var n := |rows| - 1;
      SumCountsNot(rows[..n], flipped[..n]);
    }
  }

  /** No row has a bit set at or beyond column `w`: the padding of every row is clear. */
  ghost predicate Clean(w: nat, rows: seq<BitRow>)
  {
    forall k, j :: 0 <= k < |rows| && w <= j < NUM_BITS ==> !RowGet(rows[k], j)
  }

  /** The word `(1 << w) - 1`: the bits below `w`. */
  function LowMask(w: nat): Word
  {
    seq(NUM_BITS, k => k < w)
  }

  /** A row's complement within its first `w` columns; the bits from `w` on are cleared. */
  function RowNotWithin(a: BitRow, w: nat): (r: BitRow)
    requires w <= NUM_BITS
    ensures forall j :: 0 <= j < w ==> RowGet(r, j) == !RowGet(a, j)
    ensures forall j :: w <= j < NUM_BITS ==> !RowGet(r, j)
  {
    BitRow(AndW(NotW(a.bits), LowMask(w)))
  }

  /** Bits that are all clear from position `w` on count as their first `w`. */
  lemma {:induction false} CountTrueLow(s: seq<bool>, w: nat)
    requires w <= |s|
    requires forall j :: w <= j < |s| ==> !s[j]
    ensures CountTrue(s) == CountTrue(s[..w])
  {
    if |s| > w {
      var t := s[..|s| - 1];
      CountTrueLow(t, w);
      assert t[..w] == s[..w];
    } else {
      assert s[..w] == s;
    }
  }

  /** A row with clear padding and its complement within `w` columns count `w` together. */
  lemma RowNotWithinCount(a: BitRow, w: nat)
    requires w <= NUM_BITS
    requires forall j :: w <= j < NUM_BITS ==> !RowGet(a, j)
    ensures RowCountOnes(RowNotWithin(a, w)) + RowCountOnes(a) == w
  {
    var r := RowNotWithin(a, w);
    assert forall j :: w <= j < NUM_BITS ==> a.bits[j] == RowGet(a, j);
    assert forall j :: w <= j < NUM_BITS ==> r.bits[j] == RowGet(r, j);
    assert forall j :: 0 <= j < w ==> r.bits[..w][j] == RowGet(r, j) && a.bits[..w][j] == RowGet(a, j);
    CountTrueLow(a.bits, w);
    CountTrueLow(r.bits, w);
    CountTrueNot(a.bits[..w], r.bits[..w]);
  }

  /** Rows whose padding is clear count at most `w` each. */
  lemma CleanCountBound(rows: seq<BitRow>, w: nat)
    ensures w <= NUM_BITS && Clean(w, rows) ==> SumCounts(rows) <= w * |rows|
  {
    if w <= NUM_BITS && Clean(w, rows) {
      SumCountsNotWithin(rows, seq(|rows|, k requires 0 <= k < |rows| => RowNotWithin(rows[k], w)), w);
    }
  }

  /** Complementing rows with clear padding within `w` columns turns the total count into `w * rows` minus it. */
  lemma {:induction false} SumCountsNotWithin(rows: seq<BitRow>, flipped: seq<BitRow>, w: nat)
    requires w <= NUM_BITS
    requires |flipped| == |rows| && Clean(w, rows)
    requires forall k :: 0 <= k < |rows| ==> flipped[k] == RowNotWithin(rows[k], w)
    ensures SumCounts(flipped) == w * |rows| - SumCounts(rows)
  {
    if |rows| > 0 {
      var n := |rows| - 1;
      var pre, fpre := rows[..n], flipped[..n];
      assert Clean(w, pre) by {
        forall k, j | 0 <= k < n && w <= j < NUM_BITS
          ensures !RowGet(pre[k], j)
        {
          assert pre[k] == rows[k];
        }
      }
      SumCountsNotWithin(pre, fpre, w);
      assert forall j :: w <= j < NUM_BITS ==> !RowGet(rows[n], j);
      RowNotWithinCount(rows[n], w);
      assert SumCounts(flipped) == SumCounts(fpre) + RowCountOnes(flipped[n]);
      assert SumCounts(rows) == SumCounts(pre) + RowCountOnes(rows[n]);
      MulSucc(w, n);
    }
  }

  lemma MulSucc(w: nat, n: nat)
    ensures w * (n + 1) == w * n + w
  {
  }

  /**
   * The source's `!` counts the padding: a 1 by 1 grid of zeros complemented by
   * `!` counts 64 set bits although it has one cell, where complementing within
   * the grid counts 1.
   */
  lemma NotCountsPadding()
    ensures SumCounts([RowNot(RowNew())]) == NUM_BITS
    ensures Clean(1, [RowNew()]) && SumCounts([RowNotWithin(RowNew(), 1)]) == 1
  {
    assert [RowNot(RowNew())][..0] == [];
    assert [RowNotWithin(RowNew(), 1)][..0] == [];
    RowNotWithinCount(RowNew(), 1);
  }

  /** On the grid's own cells the two complements agree. */
  lemma NotWithinAgrees(a: BitRow, w: nat, j: nat)
    requires w <= NUM_BITS && j < w
    ensures RowGet(RowNotWithin(a, w), j) == RowGet(RowNot(a), j)
  {
  }

  /** `&` keeps the clear padding of its left operand, and `|` of two rows with clear padding keeps it clear. */
  lemma CleanKept(w: nat, a: BitRow, b: BitRow)
    requires forall j :: w <= j < NUM_BITS ==> !RowGet(a, j)
    ensures forall j :: w <= j < NUM_BITS ==> !RowGet(RowAnd(a, b), j)
    ensures (forall j :: w <= j < NUM_BITS ==> !RowGet(b, j)) ==> forall j :: w <= j < NUM_BITS ==> !RowGet(RowOr(a, b), j)
  {
  }

  /** A grid of empty rows, as `new_zero` builds, has no cell set and counts nothing. */
  lemma {:induction false} EmptyRows(rows: seq<BitRow>)
    requires forall k :: 0 <= k < |rows| ==> rows[k] == RowNew()
    ensures SumCounts(rows) == 0
    ensures forall i, j :: 0 <= i < |rows| && 0 <= j < NUM_BITS ==> !RowGet(rows[i], j)
  {
    if |rows| > 0 {
      EmptyRows(rows[..|rows| - 1]);
    }
  }
}
