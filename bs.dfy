/**
 * The per-turn pruning buffer of a beam search (`BSQueue` in library/src/bs.rs).
 *
 * The queue keeps at most `width` states ranked by an integer key.  Entries are
 * appended lazily; a sort-reverse-truncate step (`SortTruncate`) consolidates them,
 * and the key of the weakest survivor becomes an admission threshold (`minKey`)
 * that later pushes check.  `Pop` hands entries out through a moving cursor
 * (`popIndex`), leaving `None` in the consumed slots.
 */
module BeamSearch {
  import opened Wrappers

  /** The keys of `s` are non-increasing from front to back. */
  ghost predicate SortedDesc<S>(s: seq<S>, key: S -> int) {
    forall i, j {:trigger key(s[i]), key(s[j])} :: 0 <= i < j < |s| ==> key(s[i]) >= key(s[j])
  }

  /** Every slot of `s` holds a state. */
  ghost predicate AllSome<S>(s: seq<Option<S>>) {
    forall k :: 0 <= k < |s| ==> s[k].Some?
  }

  /** The states held by a sequence of filled slots. */
  function Values<S>(s: seq<Option<S>>): (r: seq<S>)
    requires AllSome(s)
  {
    seq(|s|, k requires 0 <= k < |s| => s[k].value)
  }

  /** The filled slots holding the states of `s`. */
  function Wrap<S>(s: seq<S>): (r: seq<Option<S>>)
  {
    seq(|s|, k requires 0 <= k < |s| => Some(s[k]))
  }

  /** The slots before `popIndex` are consumed (`None`), those from it on are filled. */
  ghost predicate LayoutOf<S>(buffer: seq<Option<S>>, popIndex: nat) {
    popIndex <= |buffer| &&
    (forall k :: 0 <= k < popIndex ==> buffer[k].None?) &&
    (forall k :: popIndex <= k < |buffer| ==> buffer[k].Some?)
  }

  /** The states of the filled slots, in buffer order. */
  ghost function LiveOf<S>(buffer: seq<Option<S>>, popIndex: nat): seq<S>
    requires LayoutOf(buffer, popIndex)
  {
    Values(buffer[popIndex..])
  }

  /** Appending a filled slot appends its state to the live states. */
  lemma AppendLive<S>(buffer: seq<Option<S>>, popIndex: nat, s: S)
    requires LayoutOf(buffer, popIndex)
    ensures LayoutOf(buffer + [Some(s)], popIndex)
    ensures LiveOf(buffer + [Some(s)], popIndex) == LiveOf(buffer, popIndex) + [s]
  {
    assert (buffer + [Some(s)])[popIndex..] == buffer[popIndex..] + [Some(s)];
  }

  /** Taking the slot at the cursor removes the first live state. */
  lemma TakeLive<S>(buffer: seq<Option<S>>, popIndex: nat)
    requires LayoutOf(buffer, popIndex) && popIndex < |buffer|
    ensures LayoutOf(buffer[popIndex := None], popIndex + 1)
    ensures LiveOf(buffer, popIndex) == [buffer[popIndex].value] + LiveOf(buffer[popIndex := None], popIndex + 1)
  {
    assert buffer[popIndex := None][popIndex + 1..] == buffer[popIndex + 1..];
  }

  /** A buffer of freshly wrapped states has no consumed slot. */
  lemma WrapLive<S>(t: seq<S>, w: nat)
    ensures LayoutOf(Wrap(t), 0) && LiveOf(Wrap(t), 0) == t
    ensures w <= |t| ==> Wrap(t)[..w] == Wrap(t[..w])
  {
  }

  /**
   * Inserts `x` into `s` before the first entry whose key is smaller than its own.
   * Together with `SortDesc` this is the reference definition of the library sort
   * followed by `reverse` (library/src/bs.rs:72-74).
   */
  function InsertDesc<S>(x: S, s: seq<S>, key: S -> int): (r: seq<S>)
    ensures multiset(r) == multiset(s) + multiset{x}
  {
    if s == [] || key(x) >= key(s[0]) then
      [x] + s
    else
      assert s == [s[0]] + s[1..];
      [s[0]] + InsertDesc(x, s[1..], key)
  }

  /** A state at least as good as every state of a sorted sequence may lead it. */
  lemma {:induction false} ConsSorted<S>(h: S, t: seq<S>, key: S -> int)
    requires SortedDesc(t, key)
    requires forall z :: z in t ==> key(h) >= key(z)
    ensures SortedDesc([h] + t, key)
  {
    var r := [h] + t;
    forall i, j | 0 <= i < j < |r| ensures key(r[i]) >= key(r[j]) {
      if i == 0 {
        assert r[j] == t[j - 1] && t[j - 1] in t;
      } else {
        assert r[i] == t[i - 1] && r[j] == t[j - 1];
      }
    }
  }

  /** Inserting into a key-sorted sequence keeps it sorted. */
  lemma {:induction false} InsertDescSorted<S>(x: S, s: seq<S>, key: S -> int)
    requires SortedDesc(s, key)
    ensures SortedDesc(InsertDesc(x, s, key), key)
  {
    if s == [] {
      ConsSorted(x, s, key);
    } else if key(x) >= key(s[0]) {
      HeadIsMaximum(s, key);
      ConsSorted(x, s, key);
    } else {
      var tail := InsertDesc(x, s[1..], key);
      assert SortedDesc(s[1..], key) by {
        forall i, j | 0 <= i < j < |s[1..]| ensures key(s[1..][i]) >= key(s[1..][j]) {
          assert key(s[i + 1]) >= key(s[j + 1]);
        }
      }
      InsertDescSorted(x, s[1..], key);
      HeadIsMaximum(s, key);
      forall z | z in tail ensures key(s[0]) >= key(z) {
        assert z in multiset(tail);
        if z != x {
          assert z in multiset(s[1..]);
          assert z in s;
        }
      }
      ConsSorted(s[0], tail, key);
    }
  }

  /** Sorts `s` so that keys are non-increasing; a permutation of `s`. */
  function SortDesc<S>(s: seq<S>, key: S -> int): (r: seq<S>)
    ensures multiset(r) == multiset(s)
    ensures |r| == |s|
    ensures SortedDesc(r, key)
  {
    if s == [] then
      []
    else
      assert s == [s[0]] + s[1..];
      var rest := SortDesc(s[1..], key);
      InsertDescSorted(s[0], rest, key);
      var r := InsertDesc(s[0], rest, key);
      assert |r| == |multiset(r)|;
      r
  }

  /**
   * `kept` is the best `width` states of `live` (all of them when fewer remain),
   * best first, so that no dropped state beats the last survivor: what the
   * sort-reverse-truncate step leaves.  Ties among equal keys
   * may be broken either way, as the unstable sort does.
   */
  ghost predicate KeepsBest<S>(width: nat, key: S -> int, live: seq<S>, kept: seq<S>) {
    SortedDesc(kept, key) &&
    multiset(kept) <= multiset(live) &&
    |kept| == (if |live| < width then |live| else width) &&
    (|kept| > 0 ==> forall x :: x in multiset(live) - multiset(kept) ==> key(x) <= key(kept[|kept| - 1]))
  }

  /** In a key-sorted sequence, the states from position `w` on are no better than the one at `w - 1`. */
  lemma {:induction false} TailBelow<S>(sorted: seq<S>, w: nat, key: S -> int)
    requires SortedDesc(sorted, key) && 0 < w <= |sorted|
    ensures forall x :: x in sorted[w..] ==> key(x) <= key(sorted[w - 1])
  {
    forall x | x in sorted[w..] ensures key(x) <= key(sorted[w - 1]) {
      var i :| 0 <= i < |sorted[w..]| && sorted[w..][i] == x;
      assert sorted[w + i] == x;
    }
  }

  /** Truncating a key-sorted sequence to its first `width` entries keeps the best ones. */
  lemma {:induction false} TruncateKeepsBest<S>(width: nat, key: S -> int, live: seq<S>, sorted: seq<S>)
    requires SortedDesc(sorted, key) && multiset(sorted) == multiset(live)
    requires width <= |sorted|
    ensures KeepsBest(width, key, live, sorted[..width])
  {
    var kept, rest := sorted[..width], sorted[width..];
    assert sorted == kept + rest;
    assert multiset(live) - multiset(kept) == multiset(rest);
    assert |live| == |multiset(live)| == |sorted|;
    assert SortedDesc(kept, key);
    if width > 0 {
      TailBelow(sorted, width, key);
      assert kept[width - 1] == sorted[width - 1];
    }
  }

  /** A sorted sequence shorter than `width` is kept whole. */
  lemma {:induction false} ShortKeepsAll<S>(width: nat, key: S -> int, live: seq<S>, sorted: seq<S>)
    requires SortedDesc(sorted, key) && multiset(sorted) == multiset(live)
    requires |sorted| < width
    ensures KeepsBest(width, key, live, sorted)
  {
    assert |live| == |multiset(live)| == |sorted|;
    assert multiset(live) - multiset(sorted) == multiset{};
  }

  /**
   * The admission threshold never drops: if every live state already has key at
   * least `m`, the weakest state kept by a consolidation has key at least `m`
   * (library/src/bs.rs:35-40, 79-80).
   */
  lemma {:induction false} ThresholdMonotone<S>(width: nat, key: S -> int, live: seq<S>, kept: seq<S>, m: int)
    requires KeepsBest(width, key, live, kept) && |kept| > 0
    requires forall x :: x in live ==> key(x) >= m
    ensures key(kept[|kept| - 1]) >= m
  {
    var last := kept[|kept| - 1];
    assert last in multiset(kept);
    assert last in multiset(live);
    assert last in live;
  }

  /** Sequences with the same multiset hold the same states. */
  lemma SameStates<S>(a: seq<S>, b: seq<S>)
    requires multiset(a) <= multiset(b)
    ensures forall x :: x in a ==> x in b
  {
    forall x | x in a ensures x in b {
      assert x in multiset(a);
    }
  }

  /** The first state of a key-sorted sequence has the largest key. */
  lemma {:induction false} HeadIsMaximum<S>(t: seq<S>, key: S -> int)
    requires SortedDesc(t, key) && |t| > 0
    ensures forall x :: x in t ==> key(x) <= key(t[0])
  {
    forall x | x in t ensures key(x) <= key(t[0]) {
      var j :| 0 <= j < |t| && t[j] == x;
      if j > 0 {
        assert key(t[0]) >= key(t[j]);
      }
    }
  }

  /** The last state of a key-sorted sequence has the smallest key. */
  lemma {:induction false} LastIsMinimum<S>(t: seq<S>, key: S -> int)
    requires SortedDesc(t, key) && |t| > 0
    ensures forall x :: x in t ==> key(x) >= key(t[|t| - 1])
  {
    forall x | x in t ensures key(x) >= key(t[|t| - 1]) {
      var j :| 0 <= j < |t| && t[j] == x;
      if j < |t| - 1 {
        assert key(t[j]) >= key(t[|t| - 1]);
      }
    }
  }

  /** The best state of a consolidation is at least as good as every live state. */
  lemma {:induction false} BestIsMaximum<S>(width: nat, key: S -> int, live: seq<S>, kept: seq<S>)
    requires KeepsBest(width, key, live, kept) && |kept| > 0
    ensures forall x :: x in live ==> key(x) <= key(kept[0])
  {
    forall x | x in live ensures key(x) <= key(kept[0]) {
      if x in multiset(live) - multiset(kept) {
      } else {
        assert x in multiset(kept);
        var j :| 0 <= j < |kept| && kept[j] == x;
        if j > 0 {
          assert key(kept[0]) >= key(kept[j]);
        }
      }
    }
  }

  /**
   * The queue invariant on the values of its fields, apart from the capacity bound:
   * the consumed slots are exactly those before the cursor; a clean queue holds at
   * most `width` live states, best first; and every live state has key at least
   * the threshold.
   */
  ghost predicate QueueInv<S>(width: nat, key: S -> int, buffer: seq<Option<S>>, minKey: Option<int>,
                              isDirty: bool, popIndex: nat)
  {
    width > 0 &&
    LayoutOf(buffer, popIndex) &&
    (!isDirty ==> |LiveOf(buffer, popIndex)| <= width && SortedDesc(LiveOf(buffer, popIndex), key)) &&
    (minKey.Some? ==> forall x :: x in LiveOf(buffer, popIndex) ==> key(x) >= minKey.value)
  }

  /**
   * Consolidating `live` under threshold `mk0` kept `kept` and left threshold `mk`
   * and dirty flag `dirty`: with at least `width` live states the threshold becomes
   * the key of the weakest survivor and the queue is clean; otherwise both stay.
   */
  ghost predicate ConsolidatedTo<S>(width: nat, key: S -> int, live: seq<S>, mk0: Option<int>,
                                    kept: seq<S>, mk: Option<int>, dirty: bool)
  {
    width > 0 &&
    KeepsBest(width, key, live, kept) &&
    if |live| >= width then
      mk == Some(key(kept[width - 1])) && !dirty
    else
      mk == mk0 && dirty
  }

  /**
   * Consolidating the live states `live` when fewer than `width` of them remain
   * (library/src/bs.rs:64-76): the sorted states `sorted` are all kept, and the
   * rebuilt buffer `buffer'` stays dirty under its old threshold.
   */
  lemma {:induction false} ConsolidateShort<S>(width: nat, key: S -> int, live: seq<S>, mk: Option<int>,
                                               sorted: seq<S>, buffer': seq<Option<S>>)
    requires width > 0
    requires mk.Some? ==> forall x :: x in live ==> key(x) >= mk.value
    requires SortedDesc(sorted, key) && multiset(sorted) == multiset(live) && |sorted| < width
    requires buffer' == Wrap(sorted)
    ensures QueueInv(width, key, buffer', mk, true, 0)
    ensures ConsolidatedTo(width, key, live, mk, LiveOf(buffer', 0), mk, true)
  {
    WrapLive(sorted, 0);
    ShortKeepsAll(width, key, live, sorted);
    SameStates(sorted, live);
  }

  /**
   * Consolidating the live states `live` when at least `width` of them remain
   * (library/src/bs.rs:64-82): the first `width` sorted states are the best ones,
   * the key of the last of them becomes the threshold `mk'`, no lower than the old
   * one, and the rebuilt buffer `buffer'` is clean.
   */
  lemma {:induction false} ConsolidateFull<S>(width: nat, key: S -> int, live: seq<S>, mk0: Option<int>,
                                              sorted: seq<S>, buffer': seq<Option<S>>, mk': Option<int>)
    requires width > 0
    requires mk0.Some? ==> forall x :: x in live ==> key(x) >= mk0.value
    requires SortedDesc(sorted, key) && multiset(sorted) == multiset(live) && width <= |sorted|
    requires buffer' == Wrap(sorted)[..width] && mk' == Some(key(sorted[width - 1]))
    ensures QueueInv(width, key, buffer', mk', false, 0)
    ensures ConsolidatedTo(width, key, live, mk0, LiveOf(buffer', 0), mk', false)
    ensures mk0.Some? ==> mk0.value <= mk'.value
  {
    var kept := sorted[..width];
    WrapLive(sorted, width);
    WrapLive(kept, 0);
    TruncateKeepsBest(width, key, live, sorted);
    LastIsMinimum(kept, key);
    if mk0.Some? {
      ThresholdMonotone(width, key, live, kept, mk0.value);
    }
  }

  /** Appending an admitted state `s` to a valid queue (library/src/bs.rs:42-43). */
  lemma AppendStep<S>(width: nat, key: S -> int, buffer: seq<Option<S>>, mk: Option<int>,
                      dirty: bool, p: nat, s: S)
    requires QueueInv(width, key, buffer, mk, dirty, p)
    requires mk.Some? ==> key(s) >= mk.value
    ensures LayoutOf(buffer + [Some(s)], p)
    ensures LiveOf(buffer + [Some(s)], p) == LiveOf(buffer, p) + [s]
    ensures QueueInv(width, key, buffer + [Some(s)], mk, true, p)
  {
    AppendLive(buffer, p, s);
  }

  /** Taking the state at the cursor `p` of a valid queue (library/src/bs.rs:58-59). */
  lemma {:induction false} TakeStep<S>(width: nat, key: S -> int, buffer: seq<Option<S>>, mk: Option<int>,
                                       dirty: bool, p: nat)
    requires QueueInv(width, key, buffer, mk, dirty, p)
    requires p < |buffer|
    ensures LayoutOf(buffer[p := None], p + 1)
    ensures LiveOf(buffer, p) == [buffer[p].value] + LiveOf(buffer[p := None], p + 1)
    ensures QueueInv(width, key, buffer[p := None], mk, dirty, p + 1)
  {
    TakeLive(buffer, p);
    var live, rest := LiveOf(buffer, p), LiveOf(buffer[p := None], p + 1);
    assert forall x :: x in rest ==> x in live;
    if !dirty {
      assert rest == live[1..];
    }
  }

  class BSQueue<S> {
    /** The beam width: the most states kept after a consolidation. */
    const width: nat
    /** The ranking function (`key_fn`); larger keys are better. */
    const key: S -> int

    var buffer: seq<Option<S>>
    var minKey: Option<int>
    var isDirty: bool
    var popIndex: nat

    ghost predicate Inv()
      reads this
    {
      QueueInv(width, key, buffer, minKey, isDirty, popIndex)
    }

    /** The invariant, and the buffer stays below its capacity `2 * width`. */
    ghost predicate Valid()
      reads this
    {
      Inv() && |buffer| < 2 * width
    }

    /** The states not yet popped, in buffer order. */
    ghost function Live(): seq<S>
      reads this
      requires Inv()
    {
      LiveOf(buffer, popIndex)
    }

    constructor (width: nat, key: S -> int)
      requires width > 0
      ensures Valid()
      ensures this.width == width && this.key == key
      ensures buffer == [] && minKey == None && !isDirty && popIndex == 0
    {
      this.width := width;
      this.key := key;
      buffer := [];
      minKey := None;
      isDirty := false;
      popIndex := 0;
    }

    /** A fresh, empty queue of the same width and key. */
    method PrepareNextQueue() returns (q: BSQueue<S>)
      requires Valid()
      ensures fresh(q) && q.Valid()
      ensures q.width == width && q.key == key
      ensures q.buffer == [] && q.minKey == None && !q.isDirty && q.popIndex == 0
    {
      q := new BSQueue(width, key);
    }

    /**
     * Consolidates a clean or dirty queue only when it is dirty; a clean queue is
     * left as it is.
     */
    method SortTruncate()
      requires Inv() && (isDirty || |buffer| < 2 * width)
      modifies this
      ensures Valid()
      ensures !old(isDirty) ==>
        buffer == old(buffer) && popIndex == old(popIndex) &&
        minKey == old(minKey) && isDirty == old(isDirty)
      ensures old(isDirty) ==>
        popIndex == 0 && ConsolidatedTo(width, key, old(Live()), old(minKey), Live(), minKey, isDirty)
      ensures old(minKey).Some? ==> minKey.Some? && old(minKey).value <= minKey.value
    {
      if !isDirty {
        return;
      }
      Consolidate();
    }

    /**
     * Drops the consumed slots, sorts the rest best first and, when at least
     * `width` remain, truncates to `width` and raises the threshold to the key of
     * the weakest survivor; otherwise the threshold and the dirty flag stay.
     */
    method Consolidate()
      requires Inv() && isDirty
      modifies this
      ensures Valid() && popIndex == 0
      ensures ConsolidatedTo(width, key, old(Live()), old(minKey), Live(), minKey, isDirty)
      ensures old(minKey).Some? ==> minKey.Some? && old(minKey).value <= minKey.value
    {
      ghost var live := Live();
      // drain(0..pop_index)
      buffer, popIndex := buffer[popIndex..], 0;
      // sort by key, then reverse
      var sorted := SortDesc(Values(buffer), key);
      buffer := Wrap(sorted);
      if |sorted| < width {
        ConsolidateShort(width, key, live, minKey, sorted, buffer);
      } else {
        // truncate(width); the key of the last survivor becomes the threshold
        buffer := buffer[..width];
        minKey, isDirty := Some(key(buffer[width - 1].value)), false;
        ConsolidateFull(width, key, live, old(minKey), sorted, buffer, minKey);
      }
    }

    /**
     * Offers a state to the queue.  A state whose key is below the threshold is
     * rejected; a key equal to the threshold is admitted.  The push that fills the
     * buffer to its capacity `2 * width` consolidates at once.
     */
    method Push(s: S)
      requires Valid()
      modifies this
      ensures Valid()
      ensures old(minKey).Some? && key(s) < old(minKey).value ==>
        buffer == old(buffer) && popIndex == old(popIndex) &&
        minKey == old(minKey) && isDirty == old(isDirty)
      ensures (old(minKey).None? || key(s) >= old(minKey).value) && |old(buffer)| + 1 < 2 * width ==>
        buffer == old(buffer) + [Some(s)] && popIndex == old(popIndex) &&
        minKey == old(minKey) && isDirty
      ensures (old(minKey).None? || key(s) >= old(minKey).value) && |old(buffer)| + 1 == 2 * width ==>
        popIndex == 0 && ConsolidatedTo(width, key, old(Live()) + [s], old(minKey), Live(), minKey, isDirty)
      ensures multiset(Live()) <= multiset(old(Live())) + multiset{s}
      ensures old(minKey).Some? ==> minKey.Some? && old(minKey).value <= minKey.value
    {
      if minKey.Some? {
        if key(s) < minKey.value {
          return;
        }
      }
      AppendStep(width, key, buffer, minKey, isDirty, popIndex, s);
      buffer, isDirty := buffer + [Some(s)], true;
      if |buffer| == 2 * width {
        SortTruncate();
      }
    }

    /**
     * Takes the state at the cursor, the first live one, and advances the cursor;
     * `None` when the cursor has reached the end of the buffer.  On a queue whose
     * live states are sorted this is the best one.
     */
    method TakeNext() returns (r: Option<S>)
      requires Valid() && SortedDesc(Live(), key)
      modifies this
      ensures Valid()
      ensures minKey == old(minKey) && isDirty == old(isDirty)
      ensures r.None? <==> old(Live()) == []
      ensures r.None? ==> buffer == old(buffer) && popIndex == old(popIndex)
      ensures r.Some? ==>
        buffer == old(buffer)[old(popIndex) := None] && popIndex == old(popIndex) + 1 &&
        old(Live()) == [r.value] + Live()
      ensures r.Some? ==> forall x :: x in old(Live()) ==> key(x) <= key(r.value)
    {
      if popIndex >= |buffer| {
        return None;
      }
      HeadIsMaximum(Live(), key);
      TakeStep(width, key, buffer, minKey, isDirty, popIndex);
      r := buffer[popIndex];
      buffer, popIndex := buffer[popIndex := None], popIndex + 1;
    }

    /**
     * Takes the best remaining state, consolidating first when entries were pushed
     * since the last consolidation; `None` when nothing remains.
     */
    method Pop() returns (r: Option<S>)
      requires Valid()
      modifies this
      ensures Valid()
      ensures r.None? <==> old(Live()) == []
      ensures r.Some? ==> r.value in multiset(old(Live()))
      ensures multiset(Live()) + (if r.Some? then multiset{r.value} else multiset{}) <= multiset(old(Live()))
      ensures r.Some? ==> forall x :: x in old(Live()) ==> key(x) <= key(r.value)
      ensures r.Some? ==> forall x :: x in Live() ==> key(x) <= key(r.value)
      ensures old(isDirty) ==>
        popIndex == (if r.Some? then 1 else 0) &&
        ConsolidatedTo(width, key, old(Live()), old(minKey),
                       (if r.Some? then [r.value] else []) + Live(), minKey, isDirty)
      ensures !old(isDirty) && r.Some? ==>
        buffer == old(buffer)[old(popIndex) := None] && popIndex == old(popIndex) + 1 &&
        minKey == old(minKey) && !isDirty
      ensures !old(isDirty) && r.None? ==>
        buffer == old(buffer) && popIndex == old(popIndex) && minKey == old(minKey) && !isDirty
      ensures old(minKey).Some? ==> minKey.Some? && old(minKey).value <= minKey.value
    {
      ghost var live := Live();
      if isDirty {
        SortTruncate();
        if |Live()| > 0 {
          BestIsMaximum(width, key, live, Live());
        }
      }
      ghost var mid := Live();
      r := TakeNext();
      if r.Some? {
        assert forall x :: x in Live() ==> x in mid;
        assert r.value in mid;
      }
    }
  }

  /**
   * Two pops with no push in between hand out non-increasing keys, and once the
   * queue is exhausted it stays exhausted.
   */
  method PopTwice<S>(q: BSQueue<S>) returns (a: Option<S>, b: Option<S>)
    requires q.Valid()
    modifies q
    ensures q.Valid()
    ensures a.Some? && b.Some? ==> q.key(b.value) <= q.key(a.value)
    ensures a.None? ==> b.None?
  {
    a := q.Pop();
    b := q.Pop();
  }
}
