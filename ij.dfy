/**
 * Grid coordinates (library/src/ij.rs): a cell of an `h` by `w` grid is named by
 * its row-major linear index `IJ`, and the four grid directions and the three
 * rotations act on directions modulo 4.
 */
module Ij {
  import opened Wrappers
  import Per

  /** The word size of `usize`, used where the source relies on wrap-around. */
  const USIZE_MODULUS: nat := 0x1_0000_0000_0000_0000

  /** The shape of a grid: `w` columns and `h` rows. */
  datatype IJSize = IJSize(w: nat, h: nat)

  /** A cell, by its row-major index `i * w + j`. */
  datatype IJ = IJ(index: nat)

  /** `IJSize::new` takes the row count first. */
  function NewSize(h: nat, w: nat): (c: IJSize)
    ensures c.h == h && c.w == w
  {
    IJSize(w, h)
  }

  /** The number of cells, `h * w`. */
  function Size(c: IJSize): nat
  {
    c.h * c.w
  }

  /** The cell at row `i`, column `j` with no range check (`from_pair_unchecked`). */
  function Unchecked(c: IJSize, i: nat, j: nat): IJ
  {
    IJ(i * c.w + j)
  }

  /** The cell at row `i`, column `j`, or `None` when either is out of range (`from_pair`, `make`). */
  function FromPair(c: IJSize, i: nat, j: nat): (r: Option<IJ>)
    ensures r.None? <==> i >= c.h || j >= c.w
    ensures r.Some? ==> r.value.index < Size(c)
  {
    if i >= c.h || j >= c.w then
      None
    else
      IndexInRange(c, i, j);
      Some(Unchecked(c, i, j))
  }

  /** The row and column of a cell (`to_pair`); the source divides by `w`. */
  function ToPair(p: IJ, c: IJSize): (r: (nat, nat))
    requires c.w > 0
    ensures r.1 < c.w && r.0 * c.w + r.1 == p.index
  {
    (p.index / c.w, p.index % c.w)
  }

  /** An in-range row and column give an index below the cell count. */
  lemma IndexInRange(c: IJSize, i: nat, j: nat)
    requires i < c.h && j < c.w
    ensures i * c.w + j < Size(c)
  {
    assert i * c.w + j < (i + 1) * c.w;
    assert (i + 1) * c.w <= c.h * c.w by {
      MulMonotone(i + 1, c.h, c.w);
    }
  }

  lemma MulMonotone(a: nat, b: nat, w: nat)
    requires a <= b
    ensures a * w <= b * w
  {
  }

  /** The row-major index determines its row and column. */
  lemma DivMod(i: nat, j: nat, w: nat)
    requires j < w
    ensures (i * w + j) / w == i && (i * w + j) % w == j
  {
    var n := i * w + j;
    var q, r := n / w, n % w;
    assert q * w + r == i * w + j;
    if q > i {
      assert (q - i) * w == j - r;
      MulMonotone(1, q - i, w);
    } else if q < i {
      assert (i - q) * w == r - j;
      MulMonotone(1, i - q, w);
    }
  }

  /** Round trip: the pair of an in-range cell made from a pair is that pair. */
  lemma ToPairFromPair(c: IJSize, i: nat, j: nat)
    requires i < c.h && j < c.w
    ensures FromPair(c, i, j).Some?
    ensures ToPair(FromPair(c, i, j).value, c) == (i, j)
  {
    DivMod(i, j, c.w);
  }

  /** Round trip: every cell index below the cell count is made from its own pair. */
  lemma FromPairToPair(c: IJSize, p: IJ)
    requires p.index < Size(c)
    ensures c.w > 0
    ensures ToPair(p, c).0 < c.h && ToPair(p, c).1 < c.w
    ensures FromPair(c, ToPair(p, c).0, ToPair(p, c).1) == Some(p)
  {
    var (i, j) := (p.index / c.w, p.index % c.w);
    assert p.index == i * c.w + j;
    if i >= c.h {
      MulMonotone(c.h, i, c.w);
    }
  }

  /** The four grid directions. */
  datatype IJDir = U | R | D | L

  /** The discriminant of a direction: U = 0, R = 1, D = 2, L = 3. */
  function Ord(d: IJDir): nat
  {
    match d
    case U => 0
    case R => 1
    case D => 2
    case L => 3
  }

  /** The direction with discriminant `n`. */
  function FromOrd(n: nat): (d: IJDir)
    requires n < 4
    ensures Ord(d) == n
  {
    if n == 0 then U else if n == 1 then R else if n == 2 then D else L
  }

  /** `IJDir::all`: every direction once, in discriminant order. */
  function AllDirs(): (r: seq<IJDir>)
    ensures |r| == 4
    ensures forall k :: 0 <= k < 4 ==> Ord(r[k]) == k
    ensures forall d :: r[Ord(d)] == d
  {
    [U, R, D, L]
  }

  /** The reverse of a direction. */
  function Opposite(d: IJDir): (r: IJDir)
    ensures Ord(r) == (Ord(d) + 2) % 4
  {
    match d
    case U => D
    case D => U
    case R => L
    case L => R
  }

  /**
   * `is_opposite_to`: the directions differ and their discriminants have the same
   * lowest bit.  This holds exactly for U/D and R/L in either order.
   */
  function IsOppositeTo(a: IJDir, b: IJDir): (r: bool)
    ensures r <==> (a == U && b == D) || (a == D && b == U) || (a == R && b == L) || (a == L && b == R)
    ensures r <==> b == Opposite(a)
  {
    a != b && Ord(a) % 2 == Ord(b) % 2
  }

  /** Opposition is irreflexive and symmetric, and the reverse of the reverse is the start. */
  lemma OppositeProperties(a: IJDir, b: IJDir)
    ensures !IsOppositeTo(a, a)
    ensures IsOppositeTo(a, b) == IsOppositeTo(b, a)
    ensures Opposite(Opposite(a)) == a
  {
  }

  /** A rotation: none (`S`), anticlockwise (`L`) or clockwise (`R`). */
  datatype Rotate = S | RotL | RotR

  /** The discriminant of a rotation: S = 0, L = 3, R = 1. */
  function RotOrd(r: Rotate): nat
  {
    match r
    case S => 0
    case RotL => 3
    case RotR => 1
  }

  /** `Rotate::all`, in declaration order. */
  function AllRotations(): (r: seq<Rotate>)
    ensures |r| == 3
    ensures forall k, m :: 0 <= k < m < 3 ==> r[k] != r[m]
  {
    [S, RotL, RotR]
  }

  /** Every rotation appears in `AllRotations()`. */
  lemma AllRotationsComplete(x: Rotate)
    ensures x in AllRotations()
  {
    match x
    case S => assert AllRotations()[0] == x;
    case RotL => assert AllRotations()[1] == x;
    case RotR => assert AllRotations()[2] == x;
  }

  /** `rotate`: the discriminants are added and the sum masked to its two lowest bits. */
  function Rotated(d: IJDir, r: Rotate): (e: IJDir)
    ensures Ord(e) == (Ord(d) + RotOrd(r)) % 4
  {
    FromOrd((Ord(d) + RotOrd(r)) % 4)
  }

  /** The quarter turn clockwise, as a table. */
  function Clockwise(d: IJDir): IJDir
  {
    match d
    case U => R
    case R => D
    case D => L
    case L => U
  }

  /** The quarter turn anticlockwise, as a table. */
  function Anticlockwise(d: IJDir): IJDir
  {
    match d
    case U => L
    case L => D
    case D => R
    case R => U
  }

  /** The modular definition of `rotate` agrees with the turn tables. */
  lemma RotatedTable(d: IJDir)
    ensures Rotated(d, S) == d
    ensures Rotated(d, RotR) == Clockwise(d)
    ensures Rotated(d, RotL) == Anticlockwise(d)
  {
    match d
    case U =>
    case R =>
    case D =>
    case L =>
  }

  /** Rotating by S is the identity, L undoes R, and four clockwise turns return the start. */
  lemma RotationLaws(d: IJDir)
    ensures Rotated(d, S) == d
    ensures Rotated(Rotated(d, RotR), RotL) == d
    ensures Rotated(Rotated(d, RotL), RotR) == d
    ensures Rotated(Rotated(Rotated(Rotated(d, RotR), RotR), RotR), RotR) == d
    ensures Rotated(Rotated(d, RotR), RotR) == Opposite(d)
  {
    RotatedTable(d);
    RotatedTable(Clockwise(d));
    RotatedTable(Anticlockwise(d));
    RotatedTable(Clockwise(Clockwise(d)));
    RotatedTable(Clockwise(Clockwise(Clockwise(d))));
  }

  /** The row and column offsets of a direction. */
  function DeltaI(d: IJDir): int
  {
    match d
    case U => -1
    case D => 1
    case R => 0
    case L => 0
  }

  function DeltaJ(d: IJDir): int
  {
    match d
    case U => 0
    case D => 0
    case R => 1
    case L => -1
  }

  /**
   * The cell one step from row `i`, column `j` in direction `d`, as the loop body
   * of `generate_neighbors` computes it: U and L use a checked subtraction, R and
   * D a bound check against `w` and `h` (library/src/ij.rs:52-61).
   */
  function Neighbor(c: IJSize, i: nat, j: nat, d: IJDir): Option<IJ>
  {
    match d
    case U => if i == 0 then None else Some(Unchecked(c, i - 1, j))
    case R => if j + 1 < c.w then Some(Unchecked(c, i, j + 1)) else None
    case D => if i + 1 < c.h then Some(Unchecked(c, i + 1, j)) else None
    case L => if j == 0 then None else Some(Unchecked(c, i, j - 1))
  }

  /**
   * For an in-range cell, the neighbour in direction `d` exists exactly when the
   * moved coordinates are in range, and it is the cell at those coordinates.
   */
  lemma NeighborInBounds(c: IJSize, i: nat, j: nat, d: IJDir)
    requires i < c.h && j < c.w
    ensures var ni, nj := i + DeltaI(d), j + DeltaJ(d);
      Neighbor(c, i, j, d).Some? <==> 0 <= ni < c.h && 0 <= nj < c.w
    ensures var ni, nj := i + DeltaI(d), j + DeltaJ(d);
      Neighbor(c, i, j, d).Some? ==> FromPair(c, ni as nat, nj as nat) == Neighbor(c, i, j, d)
  {
  }

  /** Symmetry: stepping back from a neighbour in the opposite direction returns to the start. */
  lemma NeighborSymmetric(c: IJSize, i: nat, j: nat, d: IJDir)
    requires i < c.h && j < c.w
    requires Neighbor(c, i, j, d).Some?
    ensures var q := ToPair(Neighbor(c, i, j, d).value, c);
      q.0 < c.h && q.1 < c.w &&
      Neighbor(c, q.0, q.1, Opposite(d)) == FromPair(c, i, j)
  {
    var ni, nj := i + DeltaI(d), j + DeltaJ(d);
    NeighborInBounds(c, i, j, d);
    ToPairFromPair(c, ni as nat, nj as nat);
  }

  /** The entry of the neighbour table for the cell at row `i`, column `j`: one slot per direction. */
  function CellAt(c: IJSize, i: nat, j: nat): (r: Per.Per<Option<IJ>>)
    ensures |r.data| == 4
  {
    Per.Per(seq(4, k requires 0 <= k < 4 => Neighbor(c, i, j, FromOrd(k))))
  }

  /** The entry of the neighbour table for the cell with index `p`. */
  function NeighborCell(c: IJSize, p: nat): (r: Per.Per<Option<IJ>>)
    requires p < Size(c)
    ensures |r.data| == 4
  {
    FromPairToPair(c, IJ(p));
    CellAt(c, ToPair(IJ(p), c).0, ToPair(IJ(p), c).1)
  }

  /** Reads the slot of direction `d` in a per-direction array (`PerIJDir`'s `Index`). */
  function At<T>(p: Per.Per<T>, d: IJDir): T
    requires |p.data| == 4
  {
    Per.Index(p, Ord(d))
  }

  /** The slots of a cell's entry that have been filled in for the first `k` directions. */
  ghost function PartialCell(c: IJSize, i: nat, j: nat, k: nat): Per.Per<Option<IJ>>
    requires k <= 4
  {
    Per.Per(seq(4, m requires 0 <= m < 4 => if m < k then Neighbor(c, i, j, FromOrd(m)) else None))
  }

  /**
   * The body of `generate_neighbors` for one cell: starting from an entry of
   * `None`s, every direction whose moved coordinates are in range gets the moved cell.
   */
  method FillCell(c: IJSize, i: nat, j: nat) returns (cell: Per.Per<Option<IJ>>)
    ensures |cell.data| == 4
    ensures forall d :: At(cell, d) == Neighbor(c, i, j, d)
  {
    cell := Per.Default(4, None);
    assert cell == PartialCell(c, i, j, 0);
    for k := 0 to 4
      invariant cell == PartialCell(c, i, j, k)
    {
      var d := AllDirs()[k];
      var moved: Option<(nat, nat)> :=
        match d
        case U => if i >= 1 then Some((i - 1, j)) else None
        case R => if j + 1 < c.w then Some((i, j + 1)) else None
        case D => if i + 1 < c.h then Some((i + 1, j)) else None
        case L => if j >= 1 then Some((i, j - 1)) else None;
      if moved.None? {
        assert PartialCell(c, i, j, k + 1) == PartialCell(c, i, j, k);
        continue;
      }
      var nij := Unchecked(c, moved.value.0, moved.value.1);
      cell := Per.Update(cell, Ord(d), Some(nij));
      assert cell == PartialCell(c, i, j, k + 1);
    }
    assert forall d :: At(cell, d) == cell.data[Ord(d)];
  }

  /**
   * `generate_neighbors`: the row-major table whose entry for every cell holds, for
   * each direction, the neighbour in that direction or `None`.
   */
  method GenerateNeighbors(c: IJSize) returns (res: seq<Per.Per<Option<IJ>>>)
    ensures |res| == Size(c)
    ensures forall p :: 0 <= p < |res| ==> res[p] == NeighborCell(c, p)
  {
    res := seq(Size(c), _ => Per.Default(4, None));
    var base := 0;
    for i := 0 to c.h
      invariant base == i * c.w <= Size(c)
      invariant |res| == Size(c)
      invariant forall p :: 0 <= p < base ==> res[p] == NeighborCell(c, p)
    {
      RowEnd(c, i);
      for j := 0 to c.w
        invariant |res| == Size(c)
        invariant base + j <= Size(c)
        invariant forall p :: 0 <= p < base + j ==> res[p] == NeighborCell(c, p)
      {
        IndexInRange(c, i, j);
        var cell := FillCell(c, i, j);
        CellMatches(c, i, j, cell);
        res := res[base + j := cell];
      }
      base := base + c.w;
    }
  }

  /** An entry agreeing with the neighbours of row `i`, column `j` is the table's entry for that cell. */
  lemma CellMatches(c: IJSize, i: nat, j: nat, cell: Per.Per<Option<IJ>>)
    requires i < c.h && j < c.w
    requires |cell.data| == 4
    requires forall d :: At(cell, d) == Neighbor(c, i, j, d)
    ensures i * c.w + j < Size(c)
    ensures cell == NeighborCell(c, i * c.w + j)
  {
    IndexInRange(c, i, j);
    DivMod(i, j, c.w);
    forall k | 0 <= k < 4
      ensures cell.data[k] == CellAt(c, i, j).data[k]
    {
      assert At(cell, FromOrd(k)) == cell.data[k];
    }
  }

  lemma RowEnd(c: IJSize, i: nat)
    requires i < c.h
    ensures (i + 1) * c.w == i * c.w + c.w <= Size(c)
  {
    MulMonotone(i + 1, c.h, c.w);
  }

  /** The offsets `dijs` adds to a cell index to step in each direction, modulo the word size. */
  function Dijs(c: IJSize): (r: Per.Per<IJ>)
    ensures |r.data| == 4
  {
    Per.New([IJ((USIZE_MODULUS - c.w % USIZE_MODULUS) % USIZE_MODULUS), IJ(1), IJ(c.w % USIZE_MODULUS),
             IJ(USIZE_MODULUS - 1)])
  }

  /** `IJ + IJ` with release-mode wrap-around of `usize`. */
  function AddWrapping(a: IJ, b: IJ): (r: IJ)
    ensures r.index < USIZE_MODULUS
    ensures a.index + b.index < USIZE_MODULUS ==> r.index == a.index + b.index
  {
    IJ((a.index + b.index) % USIZE_MODULUS)
  }

  /** The offset of each direction: minus `w`, plus one, plus `w` and minus one, each modulo the word size. */
  lemma DijsTable(c: IJSize)
    ensures At(Dijs(c), U).index == (USIZE_MODULUS - c.w % USIZE_MODULUS) % USIZE_MODULUS
    ensures At(Dijs(c), R).index == 1
    ensures At(Dijs(c), D).index == c.w % USIZE_MODULUS
    ensures At(Dijs(c), L).index == USIZE_MODULUS - 1
  {
    var p := Dijs(c);
    assert At(p, U) == p.data[0];
    assert At(p, R) == p.data[1];
    assert At(p, D) == p.data[2];
    assert At(p, L) == p.data[3];
  }

  /**
   * When the grid's indices fit in a `usize`, adding the offset of direction `d` to
   * an in-range cell with a neighbour in that direction gives the neighbour.
   */
  lemma DijsStep(c: IJSize, i: nat, j: nat, d: IJDir)
    requires Size(c) < USIZE_MODULUS
    requires i < c.h && j < c.w
    requires Neighbor(c, i, j, d).Some?
    ensures AddWrapping(Unchecked(c, i, j), At(Dijs(c), d)) == Neighbor(c, i, j, d).value
  {
    match d
    case U => DijsUp(c, i, j);
    case R => DijsRight(c, i, j);
    case D => DijsDown(c, i, j);
    case L => DijsLeft(c, i, j);
  }

  lemma DijsUp(c: IJSize, i: nat, j: nat)
    requires Size(c) < USIZE_MODULUS
    requires 0 < i < c.h && j < c.w
    ensures AddWrapping(Unchecked(c, i, j), At(Dijs(c), U)) == Unchecked(c, i - 1, j)
  {
    DijsTable(c);
    StepUp(c, i, j);
  }

  lemma DijsRight(c: IJSize, i: nat, j: nat)
    requires Size(c) < USIZE_MODULUS
    requires i < c.h && j + 1 < c.w
    ensures AddWrapping(Unchecked(c, i, j), At(Dijs(c), R)) == Unchecked(c, i, j + 1)
  {
    DijsTable(c);
    IndexInRange(c, i, j + 1);
  }

  lemma DijsDown(c: IJSize, i: nat, j: nat)
    requires Size(c) < USIZE_MODULUS
    requires i + 1 < c.h && j < c.w
    ensures AddWrapping(Unchecked(c, i, j), At(Dijs(c), D)) == Unchecked(c, i + 1, j)
  {
    DijsTable(c);
    StepDown(c, i, j);
  }

  lemma DijsLeft(c: IJSize, i: nat, j: nat)
    requires Size(c) < USIZE_MODULUS
    requires i < c.h && 0 < j < c.w
    ensures AddWrapping(Unchecked(c, i, j), At(Dijs(c), L)) == Unchecked(c, i, j - 1)
  {
    DijsTable(c);
    IndexInRange(c, i, j);
    WrapBack(i * c.w + j, 1);
  }

  lemma StepUp(c: IJSize, i: nat, j: nat)
    requires Size(c) < USIZE_MODULUS
    requires 0 < i < c.h && j < c.w
    ensures (i * c.w + j + (USIZE_MODULUS - c.w % USIZE_MODULUS) % USIZE_MODULUS) % USIZE_MODULUS
      == (i - 1) * c.w + j
  {
    IndexInRange(c, i, j);
    var n := i * c.w + j;
    assert n >= c.w by {
      MulMonotone(1, i, c.w);
    }
    assert (i - 1) * c.w + j == n - c.w;
    assert c.w % USIZE_MODULUS == c.w;
    WrapBack(n, c.w);
  }

  lemma StepDown(c: IJSize, i: nat, j: nat)
    requires Size(c) < USIZE_MODULUS
    requires i + 1 < c.h && j < c.w
    ensures (i * c.w + j + c.w % USIZE_MODULUS) % USIZE_MODULUS == (i + 1) * c.w + j
  {
    IndexInRange(c, i + 1, j);
    assert c.w <= Size(c) by {
      MulMonotone(1, c.h, c.w);
    }
    assert c.w % USIZE_MODULUS == c.w;
    assert (i + 1) * c.w + j == i * c.w + j + c.w;
  }

  /** Adding the word-size complement of `k` subtracts `k`. */
  lemma WrapBack(n: nat, k: nat)
    requires k <= n < USIZE_MODULUS
    ensures (n + (USIZE_MODULUS - k) % USIZE_MODULUS) % USIZE_MODULUS == n - k
  {
    if k == 0 {
      assert (USIZE_MODULUS - k) % USIZE_MODULUS == 0;
    } else {
      assert (USIZE_MODULUS - k) % USIZE_MODULUS == USIZE_MODULUS - k;
      assert n + (USIZE_MODULUS - k) == (n - k) + USIZE_MODULUS;
    }
  }

  /** Points are listed in strictly increasing index order. */
  ghost predicate Ascending(points: seq<IJ>)
  {
    forall a, b :: 0 <= a < b < |points| ==> points[a].index < points[b].index
  }

  /** Two ascending lists, all of the first below all of the second, concatenate to an ascending list. */
  lemma AscendingConcat(xs: seq<IJ>, ys: seq<IJ>, bound: nat)
    requires Ascending(xs) && Ascending(ys)
    requires forall q :: q in xs ==> q.index < bound
    requires forall q :: q in ys ==> bound <= q.index
    ensures Ascending(xs + ys)
  {
    var zs := xs + ys;
    forall a, b | 0 <= a < b < |zs|
      ensures zs[a].index < zs[b].index
    {
      if a < |xs| && b >= |xs| {
        assert zs[a] in xs && zs[b] in ys;
      }
    }
  }
}
