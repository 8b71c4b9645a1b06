/**
 * A set of bit positions packed in one unsigned 64-bit word (library/src/bits.rs).
 *
 * A `u64` is modelled by its 64 bits, least significant first, and each Rust
 * operator the source applies to it (`&`, `|`, `!`, `<<`, `>>`, `count_ones`) is
 * defined on that sequence.  `Value` reads the sequence back as the number it
 * stands for, and the shift and complement lemmas show that each operator on
 * bits computes the `u64` arithmetic.  A shift by 64 or more overflows in Rust, so every
 * operation taking a bit position requires it to be below 64.
 */
module Bits {
  import Ij

  /** The number of bits of a `u64`. */
  const WORD_BITS: nat := 64

  /** A `u64` as its bits, bit `k` standing for `2^k`. */
  type Word = s: seq<bool> | |s| == WORD_BITS witness seq(WORD_BITS, _ => false)

  /** The word `0`. */
  function Zero(): Word
  {
    seq(WORD_BITS, _ => false)
  }

  /** The word `1`. */
  function One(): Word
  {
    seq(WORD_BITS, k => k == 0)
  }

  /** `x & y`. */
  function AndW(x: Word, y: Word): Word
  {
    seq(WORD_BITS, k requires 0 <= k < WORD_BITS => x[k] && y[k])
  }

  /** `x | y`. */
  function OrW(x: Word, y: Word): Word
  {
    seq(WORD_BITS, k requires 0 <= k < WORD_BITS => x[k] || y[k])
  }

  /** `!x`. */
  function NotW(x: Word): Word
  {
    seq(WORD_BITS, k requires 0 <= k < WORD_BITS => !x[k])
  }

  /** `x << i`: bits move up by `i`, the top `i` fall off and zeros enter at the bottom. */
  function Shl(x: Word, i: nat): Word
    requires i < WORD_BITS
  {
    seq(WORD_BITS, k requires 0 <= k < WORD_BITS => k >= i && x[k - i])
  }

  /** `x >> i`: bits move down by `i` and zeros enter at the top. */
  function Shr(x: Word, i: nat): Word
    requires i < WORD_BITS
  {
    seq(WORD_BITS, k requires 0 <= k < WORD_BITS => k + i < WORD_BITS && x[k + i])
  }

  /** `2^n`. */
  function Pow2(n: nat): (r: nat)
    ensures r > 0
  {
    if n == 0 then 1 else 2 * Pow2(n - 1)
  }

  /** The number a list of bits stands for, least significant first: bit `k` weighs `2^k`. */
  function Value(s: seq<bool>): nat
  {
    if |s| == 0 then 0 else (if s[0] then 1 else 0) + 2 * Value(s[1..])
  }

  /** `n` zero bits. */
  function Zeros(n: nat): seq<bool>
  {
    seq(n, _ => false)
  }

  lemma {:induction false} ValueZeros(n: nat)
    ensures Value(Zeros(n)) == 0
  {
    if n > 0 {
      assert Zeros(n)[1..] == Zeros(n - 1);
      ValueZeros(n - 1);
    }
  }

  /** `n` bits stand for a number below `2^n`. */
  lemma {:induction false} ValueBound(s: seq<bool>)
    ensures Value(s) < Pow2(|s|)
  {
    if |s| > 0 {
      ValueBound(s[1..]);
    }
  }

  /** The bits of `b` placed above those of `a` weigh `2^|a|` each. */
  lemma {:induction false} ValueConcat(a: seq<bool>, b: seq<bool>)
    ensures Value(a + b) == Value(a) + Pow2(|a|) * Value(b)
  {
    if |a| == 0 {
      assert a + b == b;
    } else {
      assert (a + b)[1..] == a[1..] + b;
      ValueConcat(a[1..], b);
      Distrib(Value(a[1..]), Pow2(|a| - 1), Value(b));
    }
  }

  lemma Distrib(x: nat, p: nat, v: nat)
    ensures 2 * (x + p * v) == 2 * x + (2 * p) * v
  {
  }

  lemma {:induction false} Pow2Add(a: nat, b: nat)
    ensures Pow2(a + b) == Pow2(a) * Pow2(b)
  {
    if a > 0 {
      Pow2Add(a - 1, b);
      assert Pow2(a + b) == 2 * (Pow2(a - 1) * Pow2(b));
    }
  }

  lemma {:induction false} Pow2Below(i: nat, n: nat)
    requires i < n
    ensures Pow2(i) < Pow2(n)
  {
    if i + 1 < n {
      Pow2Below(i, n - 1);
    }
  }

  /** `x << i` as the `u64` arithmetic it is: `x * 2^i`, wrapped modulo `2^64`. */
  lemma ShlValue(x: Word, i: nat)
    requires i < WORD_BITS
    ensures Value(Shl(x, i)) == (Value(x) * Pow2(i)) % Pow2(WORD_BITS)
  {
    var lo, hi := x[..WORD_BITS - i], x[WORD_BITS - i..];
    assert Shl(x, i) == Zeros(i) + lo;
    ValueConcat(Zeros(i), lo);
    ValueZeros(i);
    assert x == lo + hi;
    ValueConcat(lo, hi);
    ValueBound(lo);
    Pow2Add(WORD_BITS - i, i);
    ShiftUp(Value(x), Value(Shl(x, i)), Value(lo), Value(hi), Pow2(WORD_BITS - i), Pow2(i));
  }

  /** The arithmetic of a left shift: the low part, scaled, is what remains modulo the word. */
  lemma ShiftUp(v: nat, r: nat, lo: nat, hi: nat, p: nat, q: nat)
    requires lo < p && q > 0
    requires v == lo + p * hi && r == q * lo
    ensures r == (v * q) % (p * q)
  {
    assert v * q == hi * (p * q) + q * lo;
    Ij.MulMonotone(lo + 1, p, q);
    Ij.DivMod(hi, q * lo, p * q);
  }

  /** `x >> i` as the `u64` arithmetic it is: `x / 2^i`, rounded down. */
  lemma ShrValue(x: Word, i: nat)
    requires i < WORD_BITS
    ensures Value(Shr(x, i)) == Value(x) / Pow2(i)
  {
    var lo, hi := x[..i], x[i..];
    assert Shr(x, i) == hi + Zeros(i);
    ValueConcat(hi, Zeros(i));
    ValueZeros(i);
    assert x == lo + hi;
    ValueConcat(lo, hi);
    ValueBound(lo);
    ShiftDown(Value(x), Value(lo), Value(hi), Pow2(i));
  }

  /** The arithmetic of a right shift: dividing drops the low part. */
  lemma ShiftDown(v: nat, lo: nat, hi: nat, p: nat)
    requires lo < p && v == lo + p * hi
    ensures v / p == hi
  {
    Ij.DivMod(hi, lo, p);
  }

  /** The word `1` stands for 1. */
  lemma OneValue()
    ensures Value(One()) == 1
  {
    assert One() == [true] + Zeros(WORD_BITS - 1);
    ValueConcat([true], Zeros(WORD_BITS - 1));
    ValueZeros(WORD_BITS - 1);
  }

  /** `1 << i`, the mask `set` builds, stands for `2^i`. */
  lemma ShlOneValue(i: nat)
    requires i < WORD_BITS
    ensures Value(Shl(One(), i)) == Pow2(i)
  {
    OneValue();
    ShlValue(One(), i);
    Pow2Below(i, WORD_BITS);
    ModSmall(Value(One()) * Pow2(i), Pow2(WORD_BITS));
  }

  lemma ModSmall(a: nat, m: nat)
    requires a < m
    ensures a % m == a
  {
    Ij.DivMod(0, a, m);
  }

  /** Bit `i` of a word is the `2^i` digit of its value. */
  lemma BitValue(x: Word, i: nat)
    requires i < WORD_BITS
    ensures x[i] <==> (Value(x) / Pow2(i)) % 2 == 1
  {
    var y := Shr(x, i);
    ShrValue(x, i);
    Ij.DivMod(Value(y[1..]), if y[0] then 1 else 0, 2);
  }

  /** `!x` as the `u64` arithmetic it is: `2^64 - 1 - x`. */
  lemma NotValue(x: Word)
    ensures Value(NotW(x)) == Pow2(WORD_BITS) - 1 - Value(x)
  {
    ComplementValue(x, NotW(x));
  }

  lemma {:induction false} ComplementValue(s: seq<bool>, t: seq<bool>)
    requires |t| == |s| && forall k :: 0 <= k < |s| ==> t[k] == !s[k]
    ensures Value(s) + Value(t) == Pow2(|s|) - 1
  {
    if |s| > 0 {
      ComplementValue(s[1..], t[1..]);
    }
  }

  /** `b as u64`. */
  function FromBool(b: bool): Word
  {
    if b then One() else Zero()
  }

  /** `1 << i` is the word whose only one bit is bit `i`. */
  lemma SingleBit(i: nat)
    requires i < WORD_BITS
    ensures forall k :: 0 <= k < WORD_BITS ==> Shl(One(), i)[k] == (k == i)
  {
  }

  /** `(x >> i) & 1 == 1`: the test the source uses to read bit `i`. */
  function TestBit(x: Word, i: nat): (r: bool)
    requires i < WORD_BITS
    ensures r == x[i]
  {
    var low := AndW(Shr(x, i), One());
    assert low[0] == x[i];
    if x[i] then assert low == One(); true
    else assert low[0] != One()[0]; low == One()
  }

  /** The number of one bits among the first `|s|` bits listed. */
  function CountTrue(s: seq<bool>): nat
  {
    if |s| == 0 then 0 else CountTrue(s[..|s| - 1]) + (if s[|s| - 1] then 1 else 0)
  }

  /** `count_ones`. */
  function PopCount(x: Word): (r: nat)
    ensures r <= WORD_BITS
  {
    CountTrueBound(x);
    CountTrue(x)
  }

  lemma {:induction false} CountTrueBound(s: seq<bool>)
    ensures CountTrue(s) <= |s|
  {
    if |s| > 0 {
      CountTrueBound(s[..|s| - 1]);
    }
  }

  /** The positions of the one bits. */
  ghost function Ones(s: seq<bool>): set<nat>
  {
    set i: nat | i < |s| && s[i]
  }

  /** The population count is the number of positions holding a one bit. */
  lemma {:induction false} CountTrueIsCardinality(s: seq<bool>)
    ensures CountTrue(s) == |Ones(s)|
  {
    if |s| > 0 {
      var t := s[..|s| - 1];
      CountTrueIsCardinality(t);
      if s[|s| - 1] {
        assert Ones(s) == Ones(t) + {|s| - 1};
      } else {
        assert Ones(s) == Ones(t);
      }
    }
  }

  /** The count of the complement of the first `|s|` bits. */
  lemma {:induction false} CountTrueNot(s: seq<bool>, t: seq<bool>)
    requires |s| == |t|
    requires forall k :: 0 <= k < |s| ==> t[k] == !s[k]
    ensures CountTrue(s) + CountTrue(t) == |s|
  {
    if |s| > 0 {
      CountTrueNot(s[..|s| - 1], t[..|t| - 1]);
    }
  }

  lemma {:induction false} CountTrueAndOr(s: seq<bool>, t: seq<bool>, a: seq<bool>, o: seq<bool>)
    requires |s| == |t| == |a| == |o|
    requires forall k :: 0 <= k < |s| ==> a[k] == (s[k] && t[k]) && o[k] == (s[k] || t[k])
    ensures CountTrue(a) + CountTrue(o) == CountTrue(s) + CountTrue(t)
  {
    if |s| > 0 {
      var n := |s| - 1;
      CountTrueAndOr(s[..n], t[..n], a[..n], o[..n]);
    }
  }

  /** Flipping one bit from zero to one raises the count by one. */
  lemma {:induction false} CountTrueRaise(s: seq<bool>, t: seq<bool>, i: nat)
    requires |s| == |t| && i < |s|
    requires !s[i] && t[i]
    requires forall k :: 0 <= k < |s| && k != i ==> t[k] == s[k]
    ensures CountTrue(t) == CountTrue(s) + 1
  {
    var n := |s| - 1;
    if i == n {
      assert s[..n] == t[..n];
    } else {
      CountTrueRaise(s[..n], t[..n], i);
    }
  }

  /** A bitset (`Bits`). */
  datatype Bits = Bits(bits: Word)

  /** The empty bitset (`new`, `Default`). */
  function New(): (r: Bits)
    ensures forall i :: 0 <= i < WORD_BITS ==> !Get(r, i)
    ensures Count(r) == 0
  {
    var r := Bits(Zero());
    CountTrueIsCardinality(r.bits);
    assert Ones(r.bits) == {};
    r
  }

  /** `get`: whether position `i` is in the set. */
  function Get(b: Bits, i: nat): (r: bool)
    requires i < WORD_BITS
    ensures r <==> i in Ones(b.bits)
    ensures r <==> (Value(b.bits) / Pow2(i)) % 2 == 1
  {
    BitValue(b.bits, i);
    TestBit(b.bits, i)
  }

  /** `set`: an OR with `1 << i` when `v` is true, an AND with `!(1 << i)` otherwise. */
  function Set(b: Bits, i: nat, v: bool): (r: Bits)
    requires i < WORD_BITS
    ensures Get(r, i) == v
    ensures forall k :: 0 <= k < WORD_BITS && k != i ==> Get(r, k) == Get(b, k)
  {
    SingleBit(i);
    if v then Bits(OrW(b.bits, Shl(One(), i))) else Bits(AndW(b.bits, NotW(Shl(One(), i))))
  }

  /** `count_ones`: the number of positions in the set. */
  function Count(b: Bits): (r: nat)
    ensures r <= WORD_BITS
    ensures r == |set i: nat | i < WORD_BITS && Get(b, i)|
  {
    CountTrueIsCardinality(b.bits);
    assert Ones(b.bits) == set i: nat | i < WORD_BITS && Get(b, i);
    PopCount(b.bits)
  }

  /** `&` and `&=`: the intersection. */
  function And(a: Bits, b: Bits): (r: Bits)
    ensures forall i :: 0 <= i < WORD_BITS ==> Get(r, i) == (Get(a, i) && Get(b, i))
  {
    Bits(AndW(a.bits, b.bits))
  }

  /** `|` and `|=`: the union. */
  function Or(a: Bits, b: Bits): (r: Bits)
    ensures forall i :: 0 <= i < WORD_BITS ==> Get(r, i) == (Get(a, i) || Get(b, i))
  {
    Bits(OrW(a.bits, b.bits))
  }

  /** `!`: the complement within the 64 positions. */
  function Not(a: Bits): (r: Bits)
    ensures forall i :: 0 <= i < WORD_BITS ==> Get(r, i) == !Get(a, i)
  {
    Bits(NotW(a.bits))
  }

  /** Two bitsets with the same members are equal. */
  lemma Extensional(a: Bits, b: Bits)
    requires forall i :: 0 <= i < WORD_BITS ==> Get(a, i) == Get(b, i)
    ensures a == b
  {
    assert forall i :: 0 <= i < WORD_BITS ==> a.bits[i] == Get(a, i);
    assert a.bits == b.bits;
  }

  /** Setting a position to the same value twice is setting it once; of two writes the last wins. */
  lemma SetIdempotent(b: Bits, i: nat, v: bool, w: bool)
    requires i < WORD_BITS
    ensures Set(Set(b, i, v), i, v) == Set(b, i, v)
    ensures Set(Set(b, i, v), i, w) == Set(b, i, w)
  {
    Extensional(Set(Set(b, i, v), i, v), Set(b, i, v));
    Extensional(Set(Set(b, i, v), i, w), Set(b, i, w));
  }

  /** The complement holds exactly the positions the set lacks. */
  lemma CountNot(b: Bits)
    ensures Count(Not(b)) == WORD_BITS - Count(b)
  {
    CountTrueNot(b.bits, Not(b).bits);
  }

  /** Inclusion and exclusion: the intersection and the union together count each set once. */
  lemma CountAndOr(a: Bits, b: Bits)
    ensures Count(And(a, b)) + Count(Or(a, b)) == Count(a) + Count(b)
  {
    CountTrueAndOr(a.bits, b.bits, And(a, b).bits, Or(a, b).bits);
  }

  /** Adding an absent position raises the count by one, removing a present one lowers it by one. */
  lemma CountSet(b: Bits, i: nat, v: bool)
    requires i < WORD_BITS
    ensures Get(b, i) == v ==> Count(Set(b, i, v)) == Count(b)
    ensures !Get(b, i) && v ==> Count(Set(b, i, v)) == Count(b) + 1
    ensures Get(b, i) && !v ==> Count(Set(b, i, v)) + 1 == Count(b)
  {
    var r := Set(b, i, v);
    if Get(b, i) == v {
      Extensional(r, b);
    } else if v {
      CountTrueRaise(b.bits, r.bits, i);
    } else {
      CountTrueRaise(r.bits, b.bits, i);
    }
  }
}
