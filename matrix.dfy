/**
 * A dense row-major matrix (library/src/matrix.rs).  Cell `(x, y)` (column `x`,
 * row `y`) is `data[y * cols + x]`; the dimensions never change after
 * construction and the cells are written in place.
 */
module Matrix {
  import opened Wrappers
  import Ij

  /** The index type `Vec2D<usize>`: `x` is the column, `y` the row. */
  datatype Vec2D = Vec2D(x: nat, y: nat)

  /** The flat position of cell `(x, y)` in a matrix with `cols` columns. */
  function Flat(cols: nat, idx: Vec2D): nat
  {
    idx.y * cols + idx.x
  }

  /** `data.chunks(n)`: consecutive slices of `n` elements, the last one possibly shorter. */
  function Chunks<T>(data: seq<T>, n: nat): (r: seq<seq<T>>)
    requires n > 0
    ensures forall k :: 0 <= k < |r| ==> 0 < |r[k]| <= n
    decreases |data|
  {
    if |data| == 0 then []
    else if |data| <= n then [data]
    else [data[..n]] + Chunks(data[n..], n)
  }

  /** The concatenation of a list of rows (`vec![$($($e),*),*]`). */
  function Flatten<T>(groups: seq<seq<T>>): seq<T>
  {
    if |groups| == 0 then [] else groups[0] + Flatten(groups[1..])
  }

  /** The chunks put back together are the sequence they were cut from. */
  lemma {:induction false} ChunksFlatten<T>(data: seq<T>, n: nat)
    requires n > 0
    ensures Flatten(Chunks(data, n)) == data
    decreases |data|
  {
    if |data| > n {
      ChunksFlatten(data[n..], n);
      assert Chunks(data, n)[1..] == Chunks(data[n..], n);
      assert data[..n] + data[n..] == data;
    } else if |data| > 0 {
      assert Chunks(data, n)[1..] == [];
    }
  }

  lemma {:induction false} FlattenAppend<T>(xs: seq<seq<T>>, ys: seq<seq<T>>)
    ensures Flatten(xs + ys) == Flatten(xs) + Flatten(ys)
  {
    if |xs| == 0 {
      assert xs + ys == ys;
    } else {
      assert (xs + ys)[1..] == xs[1..] + ys;
      FlattenAppend(xs[1..], ys);
    }
  }

  /** A matrix over `T`. */
  class Mat<T> {
    var data: seq<T>
    const rows: nat
    const cols: nat

    /** The shape invariant `new` asserts: exactly `rows * cols` cells. */
    predicate Valid()
      reads this
    {
      |data| == rows * cols
    }

    /** `new`: the source asserts `rows * cols == data.len()`. */
    constructor New(rows: nat, cols: nat, data: seq<T>)
      requires rows * cols == |data|
      ensures Valid()
      ensures this.rows == rows && this.cols == cols && this.data == data
    {
      this.rows := rows;
      this.cols := cols;
      this.data := data;
    }

    /** `filled`: `rows * cols` copies of `dflt`. */
    constructor Filled(rows: nat, cols: nat, dflt: T)
      ensures Valid()
      ensures this.rows == rows && this.cols == cols
      ensures forall k :: 0 <= k < |data| ==> data[k] == dflt
    {
      this.rows := rows;
      this.cols := cols;
      this.data := seq(rows * cols, _ => dflt);
    }

    /**
     * `get` and `Index<Vec2D>`: the cell at `idx.y * cols + idx.x`.  Only that flat
     * position is bounds-checked; a column at or past `cols` reads into a later row.
     */
    function Get(idx: Vec2D): (r: T)
      reads this
      requires Flat(cols, idx) < |data|
      ensures Valid() && idx.x < cols ==> idx.y < rows
      ensures Valid() && idx.x < cols ==>
        idx.y * cols + cols <= |data| && r == data[idx.y * cols..idx.y * cols + cols][idx.x]
    {
      if Valid() && idx.x < cols then
        FlatRow(rows, cols, idx.x, idx.y);
        RowBound(idx.y, rows, cols);
        data[Flat(cols, idx)]
      else
        data[Flat(cols, idx)]
    }

    /** `Index<(usize, usize)>`: row `i`, column `j`, read as `get(Vec2D::new(j, i))`. */
    function At(i: nat, j: nat): (r: T)
      reads this
      requires i * cols + j < |data|
      ensures r == data[i * cols + j]
    {
      Get(Vec2D(j, i))
    }

    /** `row` and `Index<usize>`: the slice `data[i * cols .. (i + 1) * cols]`. */
    function Row(i: nat): (r: seq<T>)
      reads this
      requires i * cols + cols <= |data|
      ensures |r| == cols
      ensures forall j :: 0 <= j < cols ==> i * cols + j < |data| && r[j] == At(i, j)
    {
      data[i * cols..i * cols + cols]
    }

    /** `get_mut` and `IndexMut<Vec2D>`: a write through the reference changes only that cell. */
    method GetMut(idx: Vec2D, v: T)
      requires Flat(cols, idx) < |data|
      modifies this
      ensures data == old(data)[Flat(cols, idx) := v]
      ensures Get(idx) == v
      ensures Valid() == old(Valid())
    {
      data := data[Flat(cols, idx) := v];
    }

    /** `IndexMut<(usize, usize)>`: `get_mut(Vec2D::new(j, i))`. */
    method AtMut(i: nat, j: nat, v: T)
      requires i * cols + j < |data|
      modifies this
      ensures data == old(data)[i * cols + j := v]
      ensures At(i, j) == v
    {
      GetMut(Vec2D(j, i), v);
    }

    /** `row_mut` and `IndexMut<usize>`: a write to element `j` of row `i`'s slice. */
    method RowMut(i: nat, j: nat, v: T)
      requires i * cols + cols <= |data| && j < cols
      modifies this
      ensures data == old(data)[i * cols + j := v]
      ensures Row(i)[j] == v
    {
      var base := i * cols;
      var s := data[base..base + cols];
      s := s[j := v];
      data := data[..base] + s + data[base + cols..];
      assert data == old(data)[base + j := v];
    }

    /** `iter` and `IntoIterator`: `data.chunks(cols)`, which panics when `cols` is 0. */
    function Iter(): (r: seq<seq<T>>)
      reads this
      requires cols > 0
      ensures Valid() ==> |r| == rows
      ensures Flatten(r) == data
    {
      var r := Chunks(data, cols);
      ChunksFlatten(data, cols);
      if Valid() then ChunksCount(data, rows, cols); r else r
    }
  }

  /** `chunks(cols)` of `rows * cols` elements yields `rows` chunks. */
  lemma {:induction false} ChunksCount<T>(data: seq<T>, rows: nat, cols: nat)
    requires cols > 0 && |data| == rows * cols
    ensures |Chunks(data, cols)| == rows
  {
    if rows > 1 {
      assert |data[cols..]| == (rows - 1) * cols;
      ChunksCount(data[cols..], rows - 1, cols);
    }
  }

  /** The start of chunk `i`, `i * cols`, counted out one chunk at a time. */
  ghost function Offset(i: nat, cols: nat): nat
  {
    if i == 0 then 0 else Offset(i - 1, cols) + cols
  }

  lemma {:induction false} OffsetIsProduct(i: nat, cols: nat)
    ensures Offset(i, cols) == i * cols
  {
    if i > 0 {
      OffsetIsProduct(i - 1, cols);
      assert (i - 1) * cols + cols == i * cols;
    }
  }

  /** Chunk `i` of a sequence holding at least `i + 1` full chunks is the slice of `cols` elements at `i * cols`. */
  lemma {:induction false} ChunkAt<T>(data: seq<T>, cols: nat, i: nat)
    requires cols > 0 && Offset(i, cols) + cols <= |data|
    ensures i < |Chunks(data, cols)|
    ensures Chunks(data, cols)[i] == data[Offset(i, cols)..Offset(i, cols) + cols]
  {
    if i > 0 {
      var rest := Chunks(data[cols..], cols);
      assert Offset(i, cols) == Offset(i - 1, cols) + cols;
      assert Chunks(data, cols) == [data[..cols]] + rest;
      ChunkAt(data[cols..], cols, i - 1);
      assert Chunks(data, cols)[i] == rest[i - 1];
      ShiftOffset(data, cols, i);
    } else if |data| == cols {
      assert Chunks(data, cols) == [data];
    } else {
      assert Chunks(data, cols) == [data[..cols]] + Chunks(data[cols..], cols);
    }
  }

  lemma ShiftOffset<T>(data: seq<T>, cols: nat, i: nat)
    requires i > 0 && Offset(i, cols) + cols <= |data|
    ensures data[cols..][Offset(i - 1, cols)..Offset(i - 1, cols) + cols] == data[Offset(i, cols)..Offset(i, cols) + cols]
  {
    SliceShift(data, cols, Offset(i - 1, cols), cols);
  }

  lemma SliceShift<T>(data: seq<T>, d: nat, base: nat, n: nat)
    requires d + base + n <= |data|
    ensures data[d..][base..base + n] == data[d + base..d + base + n]
  {
  }

  /** A flat index below `rows * cols` whose column is in range lies in an existing row. */
  lemma FlatRow(rows: nat, cols: nat, x: nat, y: nat)
    requires x < cols && y * cols + x < rows * cols
    ensures y < rows
  {
    if y >= rows {
      Ij.MulMonotone(rows, y, cols);
    }
  }

  /** Row `i < rows` of a `rows` by `cols` shape ends within the `rows * cols` cells. */
  lemma RowBound(i: nat, rows: nat, cols: nat)
    requires i < rows
    ensures i * cols + cols <= rows * cols
  {
    Ij.MulMonotone(i + 1, rows, cols);
  }

  /** Iterating a well-shaped matrix yields its rows in order. */
  lemma IterRows<T>(m: Mat<T>)
    requires m.Valid() && m.cols > 0
    ensures |m.Iter()| == m.rows
    ensures forall i :: 0 <= i < m.rows ==> i * m.cols + m.cols <= |m.data| && m.Iter()[i] == m.Row(i)
  {
    forall i | 0 <= i < m.rows
      ensures i * m.cols + m.cols <= |m.data| && m.Iter()[i] == m.Row(i)
    {
      RowBound(i, m.rows, m.cols);
      OffsetIsProduct(i, m.cols);
      ChunkAt(m.data, m.cols, i);
    }
  }

  /** Reading past the end of a row reads the start of the next one. */
  lemma GetWraps<T>(m: Mat<T>, x: nat, y: nat)
    requires m.cols <= x && Flat(m.cols, Vec2D(x, y)) < |m.data|
    ensures m.Get(Vec2D(x, y)) == m.Get(Vec2D(x - m.cols, y + 1))
  {
    assert Flat(m.cols, Vec2D(x, y)) == Flat(m.cols, Vec2D(x - m.cols, y + 1));
  }

  /** Tuple indexing, row slicing and `get` agree on every in-range cell. */
  lemma IndexAgree<T>(m: Mat<T>, i: nat, j: nat)
    requires m.Valid() && i < m.rows && j < m.cols
    ensures i * m.cols + j < |m.data| && i * m.cols + m.cols <= |m.data|
    ensures m.At(i, j) == m.Row(i)[j] == m.Get(Vec2D(j, i)) == m.data[i * m.cols + j]
  {
    RowBound(i, m.rows, m.cols);
  }

  /** What an invocation of `mat!` comes to: code that does not compile, a panic, or the matrix built. */
  datatype Expansion<T> = CompileError | Panic | Built(rows: nat, cols: nat, data: seq<T>)

  /**
   * Whether the data expression `vec![$($($e),*),*]` is accepted by `vec!`.
   * A comma is written between every two groups, so an empty group before the
   * last leaves a leading or a doubled comma, which no arm of `vec!` takes.
   * An empty last group leaves a trailing comma, which `vec!` allows, and a
   * single empty group leaves `vec![]`.
   */
  predicate Expands<T>(groups: seq<seq<T>>)
  {
    forall k :: 0 <= k < |groups| - 1 ==> |groups[k]| > 0
  }

  /**
   * The size computation of `mat!`, as written: the data is every element in
   * order, `rows` is the number of `;`-terminated groups and `cols` is
   * `len / rows`; the macro panics when `len != rows * cols`.  The result is the
   * `(rows, cols, data)` passed to `Mat::new`.  The empty invocation is its own
   * arm and gives a 0 by 0 matrix.
   */
  function MacroAsWritten<T>(groups: seq<seq<T>>): (r: Expansion<T>)
    ensures r.CompileError? <==> !Expands(groups)
    ensures r.Panic? <==> Expands(groups) && |groups| > 0 && |Flatten(groups)| % |groups| != 0
    ensures r.Built? ==> r.rows * r.cols == |r.data|
    ensures r.Built? && |groups| > 0 ==>
      r.rows == |groups| && r.cols == |Flatten(groups)| / |groups| && r.data == Flatten(groups)
    ensures |groups| == 0 ==> r == Built(0, 0, [])
  {
    if |groups| == 0 then Built(0, 0, [])
    else if !Expands(groups) then CompileError
    else
      var data := Flatten(groups);
      var rows := |groups|;
      var cols := |data| / rows;
      if |data| != rows * cols then Panic else Built(rows, cols, data)
  }

  /** `mat![;;]` writes `vec![,]`, which does not compile, though its groups are rectangular. */
  lemma MacroEmptyGroups()
    ensures MacroAsWritten<int>([[], []]) == CompileError
    ensures MacroAsWritten<int>([[]]) == Built(1, 0, [])
    ensures Macro<int>([[], []]) == Some((2, 0, []))
  {
    var one: seq<seq<int>> := [[]];
    var two: seq<seq<int>> := [[], []];
    assert |two[0]| == 0;
    assert one[1..] == [] && Flatten(one) == [];
    assert two[1..] == one && Flatten(two) == [];
  }

  /** Every group has `n` elements. */
  ghost predicate Rectangular<T>(groups: seq<seq<T>>, n: nat)
  {
    forall k :: 0 <= k < |groups| ==> |groups[k]| == n
  }

  /** Two ragged groups whose total length divides evenly: `mat![1; 2, 3, 4;]` is accepted as a 2 by 2 matrix. */
  lemma MacroAcceptsRagged()
    ensures MacroAsWritten([[1], [2, 3, 4]]) == Built(2, 2, [1, 2, 3, 4])
    ensures !Rectangular([[1], [2, 3, 4]], 2)
  {
    assert Flatten([[1], [2, 3, 4]]) == [1, 2, 3, 4] by {
      assert [[1], [2, 3, 4]][1..] == [[2, 3, 4]];
      assert [[2, 3, 4]][1..] == [];
    }
    assert |[[1], [2, 3, 4]][0]| == 1;
  }

  /** `mat!` with the shape check the panic message describes: every group is one row of equal length. */
  function Macro<T>(groups: seq<seq<T>>): (r: Option<(nat, nat, seq<T>)>)
    ensures r.Some? <==> |groups| == 0 || Rectangular(groups, |groups[0]|)
    ensures r.Some? ==> r.value.0 == |groups| && r.value.0 * r.value.1 == |r.value.2|
    ensures r.Some? ==> r.value.2 == Flatten(groups) && Rectangular(groups, r.value.1)
  {
    if |groups| == 0 then Some((0, 0, []))
    else if forall k :: 0 <= k < |groups| ==> |groups[k]| == |groups[0]| then
      FlattenLength(groups, |groups[0]|);
      Some((|groups|, |groups[0]|, Flatten(groups)))
    else None
  }

  lemma {:induction false} FlattenLength<T>(groups: seq<seq<T>>, n: nat)
    requires Rectangular(groups, n)
    ensures |Flatten(groups)| == |groups| * n
  {
    if |groups| > 0 {
      FlattenLength(groups[1..], n);
    }
  }

  lemma {:induction false} FlattenRows<T>(groups: seq<seq<T>>, n: nat)
    requires n > 0 && Rectangular(groups, n)
    ensures |Flatten(groups)| == |groups| * n
    ensures Chunks(Flatten(groups), n) == groups
  {
    FlattenLength(groups, n);
    if |groups| > 0 {
      FlattenRows(groups[1..], n);
      var data := Flatten(groups);
      assert data[..n] == groups[0] && data[n..] == Flatten(groups[1..]);
      if |groups| == 1 {
        assert Flatten(groups[1..]) == [];
        assert data == groups[0] && groups == [groups[0]];
      } else {
        assert groups == [groups[0]] + groups[1..];
      }
    }
  }

  /** The macro as written agrees with the checked macro on every input that compiles and that the checked macro accepts. */
  lemma MacroAgrees<T>(groups: seq<seq<T>>)
    requires Macro(groups).Some? && Expands(groups)
    ensures MacroAsWritten(groups) == Built(Macro(groups).value.0, Macro(groups).value.1, Macro(groups).value.2)
  {
    if |groups| > 0 {
      var n := |groups[0]|;
      FlattenLength(groups, n);
      Ij.DivMod(n, 0, |groups|);
    }
  }

  /** The checked macro's matrix, when it has columns, has the written groups as its rows. */
  lemma MacroRows<T>(groups: seq<seq<T>>)
    requires Macro(groups).Some? && Macro(groups).value.1 > 0
    ensures Chunks(Macro(groups).value.2, Macro(groups).value.1) == groups
  {
    FlattenRows(groups, |groups[0]|);
  }
}
