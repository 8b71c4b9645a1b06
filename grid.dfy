/**
 * A grid of cells addressed by `IJ` (library/src/grid.rs).  The grid wraps a
 * row-major matrix of `h * w` cells; here that matrix is held as its sequence of
 * cells, cell `p` at position `p.index`, and `set` writes it in place.
 * `T::default()` is passed in as `dflt`.
 */
module Grid {
  import Ij

  /** The indices below `n` whose cell differs from `dflt`, in increasing order. */
  ghost function Scan<T>(data: seq<T>, dflt: T, n: nat): seq<Ij.IJ>
    requires n <= |data|
  {
    if n == 0 then []
    else Scan(data, dflt, n - 1) + (if data[n - 1] != dflt then [Ij.IJ(n - 1)] else [])
  }

  /** The scan lists each non-default cell below `n`, and nothing else, in ascending order. */
  lemma {:induction false} ScanExact<T>(data: seq<T>, dflt: T, n: nat)
    requires n <= |data|
    ensures Ij.Ascending(Scan(data, dflt, n))
    ensures forall q :: q in Scan(data, dflt, n) <==> q.index < n && data[q.index] != dflt
  {
    if n > 0 {
      var prev := Scan(data, dflt, n - 1);
      ScanExact(data, dflt, n - 1);
      if data[n - 1] != dflt {
        var last := [Ij.IJ(n - 1)];
        assert Scan(data, dflt, n) == prev + last;
        Ij.AscendingConcat(prev, last, n - 1);
        forall q: Ij.IJ
          ensures q in prev + last <==> q.index < n && data[q.index] != dflt
        {
          assert q in prev + last <==> q in prev || q == Ij.IJ(n - 1);
        }
      } else {
        assert Scan(data, dflt, n) == prev;
      }
    }
  }

  /** Cells that all hold the default give no points. */
  lemma {:induction false} ScanDefault<T>(data: seq<T>, dflt: T, n: nat)
    requires n <= |data|
    requires forall k :: 0 <= k < n ==> data[k] == dflt
    ensures Scan(data, dflt, n) == []
  {
    if n > 0 {
      ScanDefault(data, dflt, n - 1);
    }
  }

  /** A grid with the dimensions `c`. */
  class Grid<T(==)> {
    const c: Ij.IJSize
    var data: seq<T>

    /** The matrix holds exactly `h * w` cells. */
    ghost predicate Valid()
      reads this
    {
      |data| == Ij.Size(c)
    }

    /** `new_default`: every cell is `T::default()`, so there are no points. */
    constructor NewDefault(c: Ij.IJSize, dflt: T)
      ensures this.c == c && Valid()
      ensures forall k :: 0 <= k < |data| ==> data[k] == dflt
      ensures Points(dflt) == []
    {
      this.c := c;
      data := seq(Ij.Size(c), _ => dflt);
      new;
      ScanDefault(data, dflt, |data|);
    }

    /** `get`: the cell at `p`; an index past the cells panics. */
    function Get(p: Ij.IJ): (v: T)
      reads this
      requires p.index < |data|
      ensures Valid() ==> c.w > 0 && Ij.ToPair(p, c).0 < c.h
      ensures Valid() ==> Ij.FromPair(c, Ij.ToPair(p, c).0, Ij.ToPair(p, c).1).Some?
      ensures Valid() ==> Ij.FromPair(c, Ij.ToPair(p, c).0, Ij.ToPair(p, c).1).value == p
      ensures Valid() ==>
        Ij.ToPair(p, c).0 * c.w + Ij.ToPair(p, c).1 < |data| && v == data[Ij.ToPair(p, c).0 * c.w + Ij.ToPair(p, c).1]
    {
      if |data| == Ij.Size(c) then
        Ij.FromPairToPair(c, p);
        data[p.index]
      else
        data[p.index]
    }

    /** `set` (through `get_mut`): cell `p` becomes `v` and no other cell changes. */
    method Set(p: Ij.IJ, v: T)
      requires p.index < |data|
      modifies this
      ensures data == old(data)[p.index := v]
      ensures Get(p) == v
      ensures forall q: Ij.IJ :: q.index < |data| && q != p ==> Get(q) == old(Get(q))
    {
      data := data[p.index := v];
    }

    /** The non-default cells, in row-major order. */
    ghost function Points(dflt: T): seq<Ij.IJ>
      reads this
      requires Valid()
    {
      Scan(data, dflt, |data|)
    }

    /** `compute_points`: every cell that differs from the default, in ascending order and once each. */
    method ComputePoints(dflt: T) returns (points: seq<Ij.IJ>)
      requires Valid()
      ensures points == Points(dflt)
      ensures Ij.Ascending(points)
      ensures forall q :: q in points <==> q.index < Ij.Size(c) && Get(q) != dflt
    {
      points := [];
      for i := 0 to c.h
        invariant i * c.w <= |data|
        invariant points == Scan(data, dflt, i * c.w)
      {
        var base := i * c.w;
        assert base + c.w == (i + 1) * c.w;
        Ij.MulMonotone(i + 1, c.h, c.w);
        for j := 0 to c.w
          invariant points == Scan(data, dflt, base + j)
        {
          var pos := Ij.Unchecked(c, i, j);
          assert pos.index == base + j;
          if Get(pos) != dflt {
            points := points + [pos];
          }
        }
      }
      assert c.h * c.w == |data|;
      ScanExact(data, dflt, |data|);
    }
  }
}
