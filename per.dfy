/**
 * The fixed-size arrays generated by `make_per!` (library/src/util/per.rs): one
 * slot per value of an index type, addressed by the index's ordinal.  The
 * generated type is a `Copy` value held inside other containers, so a write
 * through `IndexMut` is modelled as a function returning the updated value.
 */
module Per {

  /** The slots of a per-index array; `|data|` is the macro's `$max_index`. */
  datatype Per<T> = Per(data: seq<T>)

  /** Wraps an array of slots (`new`). */
  function New<T>(data: seq<T>): (p: Per<T>)
    ensures |p.data| == |data|
    ensures forall k :: 0 <= k < |data| ==> Index(p, k) == data[k]
  {
    Per(data)
  }

  /** Every one of the `n` slots holds the default value `dflt` (`Default`). */
  function Default<T>(n: nat, dflt: T): (p: Per<T>)
    ensures |p.data| == n
    ensures forall k :: 0 <= k < n ==> Index(p, k) == dflt
  {
    Per(seq(n, _ => dflt))
  }

  /** Reads the slot with ordinal `k` (`Index`). */
  function Index<T>(p: Per<T>, k: nat): (v: T)
    requires k < |p.data|
    ensures v in p.data
  {
    p.data[k]
  }

  /** Writes `v` into the slot with ordinal `k` (`IndexMut`); every other slot keeps its value. */
  function Update<T>(p: Per<T>, k: nat, v: T): (q: Per<T>)
    requires k < |p.data|
    ensures |q.data| == |p.data|
    ensures Index(q, k) == v
    ensures forall m :: 0 <= m < |p.data| && m != k ==> Index(q, m) == Index(p, m)
  {
    Per(p.data[k := v])
  }

  /** Writing a slot and reading it back gives the written value; writing twice keeps the last. */
  lemma UpdateTwice<T>(p: Per<T>, k: nat, v: T, w: T)
    requires k < |p.data|
    ensures Update(Update(p, k, v), k, w) == Update(p, k, w)
    ensures Update(p, k, Index(p, k)) == p
  {
  }
}
