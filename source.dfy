/**
 * The whitespace tokenizer behind `input!` (io/src/source.rs).  A `Source` holds
 * the tokens still pending from the line read last and the lines its reader has
 * yet to deliver; `prepare` reads lines until a token is pending or the input is
 * exhausted, and every reader takes exactly one token.
 *
 * The reader is the sequence of lines `read_line` would return, each with its
 * line terminator; running out of lines is the zero-byte read that signals end
 * of input.  A panic of the source is an `Err` of the model.
 */
module Io {
  import opened Wrappers
  import Utf8

  /** Rust's `char::is_whitespace`: the Unicode `White_Space` characters. */
  predicate IsWhitespace(c: char)
  {
    c in WHITESPACE
  }

  const WHITESPACE: set<char> := {
    '\U{0009}', '\U{000A}', '\U{000B}', '\U{000C}', '\U{000D}', '\U{0020}', '\U{0085}', '\U{00A0}',
    '\U{1680}', '\U{2000}', '\U{2001}', '\U{2002}', '\U{2003}', '\U{2004}', '\U{2005}', '\U{2006}',
    '\U{2007}', '\U{2008}', '\U{2009}', '\U{200A}', '\U{2028}', '\U{2029}', '\U{202F}', '\U{205F}',
    '\U{3000}'
  }

  /** A token: a non-empty run of characters none of which is whitespace. */
  ghost predicate IsToken(t: string)
  {
    |t| > 0 && forall k :: 0 <= k < |t| ==> !IsWhitespace(t[k])
  }

  /** The length of the run of non-whitespace characters that starts `s`. */
  function TokenLen(s: string): (n: nat)
    ensures n <= |s|
    ensures forall k :: 0 <= k < n ==> !IsWhitespace(s[k])
    ensures n < |s| ==> IsWhitespace(s[n])
  {
    if |s| == 0 || IsWhitespace(s[0]) then 0 else 1 + TokenLen(s[1..])
  }

  /** `str::split_whitespace`: the maximal runs of non-whitespace characters, in order. */
  function Split(s: string): seq<string>
    decreases |s|
  {
    if |s| == 0 then []
    else if IsWhitespace(s[0]) then Split(s[1..])
    else
      var n := TokenLen(s);
      [s[..n]] + Split(s[n..])
  }

  /** Every piece of a split is a token, and a line splits into nothing exactly when it is blank. */
  lemma {:induction false} SplitTokens(s: string)
    ensures forall k :: 0 <= k < |Split(s)| ==> IsToken(Split(s)[k])
    ensures Split(s) == [] <==> forall k :: 0 <= k < |s| ==> IsWhitespace(s[k])
    decreases |s|
  {
    if |s| > 0 {
      if IsWhitespace(s[0]) {
        SplitTokens(s[1..]);
        assert forall k :: 1 <= k < |s| ==> s[k] == s[1..][k - 1];
      } else {
        var n := TokenLen(s);
        SplitTokens(s[n..]);
        assert forall k :: 1 <= k < |Split(s)| ==> Split(s)[k] == Split(s[n..])[k - 1];
      }
    }
  }

  /** The leading run of `a + b` is that of `a` when `a` holds a whitespace character after it. */
  lemma {:induction false} TokenLenAppend(a: string, b: string)
    requires TokenLen(a) < |a|
    ensures TokenLen(a + b) == TokenLen(a)
  {
    if !IsWhitespace(a[0]) {
      assert (a + b)[1..] == a[1..] + b;
      TokenLenAppend(a[1..], b);
    }
  }

  /** Splitting is compositional across a whitespace boundary. */
  lemma {:induction false} SplitAppend(a: string, b: string)
    requires |a| > 0 && IsWhitespace(a[|a| - 1])
    ensures Split(a + b) == Split(a) + Split(b)
    decreases |a|
  {
    if IsWhitespace(a[0]) {
      SplitAppendBlank(a, b);
    } else {
      SplitAppendToken(a, b);
    }
  }

  lemma {:induction false} SplitAppendBlank(a: string, b: string)
    requires |a| > 0 && IsWhitespace(a[|a| - 1]) && IsWhitespace(a[0])
    ensures Split(a + b) == Split(a) + Split(b)
    decreases |a|, 0
  {
    var s := a + b;
    assert s[0] == a[0] && s[1..] == a[1..] + b;
    SplitBlankHead(s);
    SplitBlankHead(a);
    if |a| > 1 {
      SplitAppend(a[1..], b);
    } else {
      assert a[1..] == [] && s[1..] == b;
    }
  }

  lemma {:induction false} SplitAppendToken(a: string, b: string)
    requires |a| > 0 && IsWhitespace(a[|a| - 1]) && !IsWhitespace(a[0])
    ensures Split(a + b) == Split(a) + Split(b)
    decreases |a|, 0
  {
    var s := a + b;
    var n := TokenLen(a);
    assert n < |a|;
    TokenLenAppend(a, b);
    SliceAppend(a, b, n);
    assert s[0] == a[0];
    SplitTokenHead(s);
    SplitTokenHead(a);
    var rest := a[n..];
    assert |rest| > 0 && IsWhitespace(rest[|rest| - 1]);
    SplitAppend(rest, b);
    AppendAssoc([a[..n]], Split(rest), Split(b));
  }

  lemma AppendAssoc(x: seq<string>, y: seq<string>, z: seq<string>)
    ensures x + (y + z) == (x + y) + z
  {
  }

  lemma SliceAppend(a: string, b: string, n: nat)
    requires n <= |a|
    ensures (a + b)[..n] == a[..n] && (a + b)[n..] == a[n..] + b
  {
  }

  lemma SplitBlankHead(s: string)
    requires |s| > 0 && IsWhitespace(s[0])
    ensures Split(s) == Split(s[1..])
  {
  }

  lemma SplitTokenHead(s: string)
    requires |s| > 0 && !IsWhitespace(s[0])
    ensures Split(s) == [s[..TokenLen(s)]] + Split(s[TokenLen(s)..])
  {
  }

  /** Tokens written out each followed by one space. */
  function Spaced(ts: seq<string>): string
  {
    if |ts| == 0 then [] else ts[0] + " " + Spaced(ts[1..])
  }

  /** Splitting undoes writing tokens out separated by spaces. */
  lemma {:induction false} SplitSpaced(ts: seq<string>)
    requires forall k :: 0 <= k < |ts| ==> IsToken(ts[k])
    ensures Split(Spaced(ts)) == ts
  {
    if |ts| > 0 {
      var t := ts[0];
      var rest := Spaced(ts[1..]);
      SplitSpaced(ts[1..]);
      SplitAppend(t + " ", rest);
      assert t + " " + rest == (t + " ") + rest;
      TokenRun(t);
    }
  }

  /** A token followed by a space splits into that token. */
  lemma TokenRun(t: string)
    requires IsToken(t)
    ensures Split(t + " ") == [t]
  {
    var s := t + " ";
    TokenLenExact(t, " ");
    assert s[..|t|] == t;
    assert s[|t|..] == " ";
    assert Split(" ") == Split(" "[1..]);
  }

  lemma {:induction false} TokenLenExact(t: string, rest: string)
    requires forall k :: 0 <= k < |t| ==> !IsWhitespace(t[k])
    requires |rest| > 0 && IsWhitespace(rest[0])
    ensures TokenLen(t + rest) == |t|
  {
    if |t| > 0 {
      assert (t + rest)[1..] == t[1..] + rest;
      TokenLenExact(t[1..], rest);
    }
  }

  /** The tokens of each line, concatenated in the order the lines come. */
  function TokensOf(lines: seq<string>): seq<string>
  {
    if |lines| == 0 then [] else Split(lines[0]) + TokensOf(lines[1..])
  }

  /** The concatenation of the lines. */
  function Concat(lines: seq<string>): string
  {
    if |lines| == 0 then [] else lines[0] + Concat(lines[1..])
  }

  /**
   * Reading line by line loses no token and joins none: when every line but the
   * last ends in its terminator, the tokens are the split of the whole input.
   */
  lemma {:induction false} TokensOfInput(lines: seq<string>)
    requires forall k :: 0 <= k < |lines| - 1 ==> |lines[k]| > 0 && IsWhitespace(lines[k][|lines[k]| - 1])
    ensures TokensOf(lines) == Split(Concat(lines))
  {
    if |lines| == 1 {
      assert lines[1..] == [];
      assert Concat(lines) == lines[0] + [] == lines[0];
      assert TokensOf(lines) == Split(lines[0]) + [];
    } else if |lines| > 1 {
      TokensOfInput(lines[1..]);
      SplitAppend(lines[0], Concat(lines[1..]));
    }
  }

  /** Why a reader panics. */
  datatype ReadError =
    | NoToken                   // `next_token().unwrap()` at the end of input
    | ParseFailure(token: string) // `parse` rejected the token
    | ZeroAsUsize1              // `Usize1` read the value 0
    | MinAsIsize1               // `Isize1` read `isize::MIN`

  /** The width of `usize` and `isize` on the contest target. */
  const WORD: nat := 0x1_0000_0000_0000_0000
  const USIZE_MAX: int := WORD - 1
  const ISIZE_MIN: int := -0x8000_0000_0000_0000
  const ISIZE_MAX: int := 0x7FFF_FFFF_FFFF_FFFF

  predicate IsDigit(c: char)
  {
    '0' <= c <= '9'
  }

  /** The value of a string of decimal digits, most significant first. */
  function DigitsValue(ds: string): nat
    requires forall k :: 0 <= k < |ds| ==> IsDigit(ds[k])
  {
    if |ds| == 0 then 0 else DigitsValue(ds[..|ds| - 1]) * 10 + DigitValue(ds[|ds| - 1])
  }

  function DigitValue(c: char): (d: nat)
    requires IsDigit(c)
    ensures d < 10
  {
    c as int - '0' as int
  }

  predicate AllDigits(ds: string)
  {
    forall k :: 0 <= k < |ds| ==> IsDigit(ds[k])
  }

  /**
   * Decimal `from_str` for an integer type ranging over `[lo, hi]`: an optional
   * `+` (or `-` when the type is signed) and at least one digit; the value must
   * lie in range.  Accumulating digit by digit only moves away from zero, so a
   * step overflows exactly when the final value is out of range.
   */
  function ParseInt(s: string, signed: bool, lo: int, hi: int): (r: Option<int>)
    ensures r.Some? ==> lo <= r.value <= hi
  {
    if |s| == 0 then None
    else if (s[0] == '+' || s[0] == '-') && |s| == 1 then None
    else
      var negative := signed && s[0] == '-';
      var ds := if s[0] == '+' || negative then s[1..] else s;
      if !AllDigits(ds) then None
      else
        var v := if negative then -(DigitsValue(ds) as int) else DigitsValue(ds) as int;
        if lo <= v <= hi then Some(v) else None
  }

  /** `usize::from_str`. */
  function ParseUsize(s: string): (r: Option<int>)
    ensures r.Some? ==> 0 <= r.value <= USIZE_MAX
  {
    ParseInt(s, false, 0, USIZE_MAX)
  }

  /** `isize::from_str`. */
  function ParseIsize(s: string): (r: Option<int>)
    ensures r.Some? ==> ISIZE_MIN <= r.value <= ISIZE_MAX
  {
    ParseInt(s, true, ISIZE_MIN, ISIZE_MAX)
  }

  /** The decimal digits of `n`, without leading zeros. */
  function Decimal(n: nat): (r: string)
    ensures |r| > 0 && AllDigits(r)
  {
    if n < 10 then [('0' as int + n) as char]
    else Decimal(n / 10) + [('0' as int + n % 10) as char]
  }

  lemma {:induction false} DecimalValue(n: nat)
    ensures DigitsValue(Decimal(n)) == n
  {
    if n >= 10 {
      var d := Decimal(n);
      assert d[..|d| - 1] == Decimal(n / 10);
      DecimalValue(n / 10);
    }
  }

  /** `to_string` of a signed integer: a `-` before the digits of a negative value. */
  function Format(v: int): (r: string)
    ensures |r| > 0
  {
    if v < 0 then "-" + Decimal(-v) else Decimal(v)
  }

  /** Parsing reads back every in-range `usize` written in decimal, with or without `+`. */
  lemma ParseUsizeDecimal(n: nat)
    requires n <= USIZE_MAX
    ensures ParseUsize(Decimal(n)) == Some(n as int)
    ensures ParseUsize("+" + Decimal(n)) == Some(n as int)
    ensures ParseUsize("-" + Decimal(n)) == None
  {
    DecimalValue(n);
    var d := Decimal(n);
    assert ("+" + d)[1..] == d;
    assert !IsDigit(("-" + d)[0]);
  }

  /** Parsing reads back every in-range `isize` as `to_string` writes it. */
  lemma ParseIsizeFormat(v: int)
    requires ISIZE_MIN <= v <= ISIZE_MAX
    ensures ParseIsize(Format(v)) == Some(v)
  {
    if v < 0 {
      var d := Decimal(-v);
      DecimalValue(-v);
      assert Format(v) == "-" + d;
      assert ("-" + d)[0] == '-' && ("-" + d)[1..] == d;
      assert ParseInt("-" + d, true, ISIZE_MIN, ISIZE_MAX) == Some(-(DigitsValue(d) as int));
    } else {
      var d := Decimal(v);
      DecimalValue(v);
      assert Format(v) == d && IsDigit(d[0]);
      assert ParseInt(d, true, ISIZE_MIN, ISIZE_MAX) == Some(DigitsValue(d) as int);
    }
  }

  /** A value out of range is rejected, whatever its sign. */
  lemma ParseOutOfRange(n: nat)
    ensures n > USIZE_MAX ==> ParseUsize(Decimal(n)) == None
    ensures n > ISIZE_MAX ==> ParseIsize(Decimal(n)) == None
    ensures n > -ISIZE_MIN ==> ParseIsize("-" + Decimal(n)) == None
  {
    DecimalValue(n);
    assert ("-" + Decimal(n))[1..] == Decimal(n);
  }

  /** A string holding no digit is rejected. */
  lemma ParseNoDigits()
    ensures ParseUsize("") == None && ParseUsize("+") == None
    ensures ParseIsize("") == None && ParseIsize("+") == None && ParseIsize("-") == None
  {
  }

  /** `Usize1`: the value read, minus one; reading 0 panics. */
  function Usize1(n: int): (r: Result<int, ReadError>)
    requires 0 <= n <= USIZE_MAX
    ensures r.Ok? <==> n >= 1
    ensures r.Ok? ==> r.value + 1 == n && 0 <= r.value < USIZE_MAX
    ensures r.Err? ==> r.error == ZeroAsUsize1
  {
    if n == 0 then Err(ZeroAsUsize1) else Ok(n - 1)
  }

  /** `Isize1`: the value read, minus one; `isize::MIN` is the one value whose predecessor does not exist. */
  function Isize1(n: int): (r: Result<int, ReadError>)
    requires ISIZE_MIN <= n <= ISIZE_MAX
    ensures r.Ok? <==> n != ISIZE_MIN
    ensures r.Ok? ==> r.value + 1 == n && ISIZE_MIN <= r.value < ISIZE_MAX
    ensures r.Err? ==> r.error == MinAsIsize1
  {
    if n == ISIZE_MIN then Err(MinAsIsize1) else Ok(n - 1)
  }

  /** The input a source reads. */
  class Source {
    /** The tokens of the last line read that `tokens` has not yet yielded. */
    var pending: seq<string>
    /** The lines the reader has not yet delivered. */
    var lines: seq<string>

    /** The pending tokens are tokens of a split line. */
    ghost predicate Valid()
      reads this
    {
      forall k :: 0 <= k < |pending| ==> IsToken(pending[k])
    }

    /** Every token still to come, in order. */
    ghost function Stream(): seq<string>
      reads this
    {
      pending + TokensOf(lines)
    }

    /**
     * `new` (and `Default`): nothing read yet, so the tokens to come are those of the whole input.
     * `input` is what successive `read_line` calls return before end of file; each holds at least
     * one byte (its line terminator, unless it is the last), since zero bytes means end of file.
     */
    constructor New(input: seq<string>)
      requires forall k :: 0 <= k < |input| ==> input[k] != ""
      ensures Valid()
      ensures pending == [] && lines == input
      ensures Stream() == TokensOf(input)
    {
      pending := [];
      lines := input;
    }

    /**
     * `prepare`: read lines until one has a token or the reader is exhausted.
     * No token is lost or added; blank lines are skipped.
     */
    method Prepare()
      requires Valid()
      modifies this
      ensures Valid()
      ensures Stream() == old(Stream())
      ensures pending == [] ==> lines == []
      ensures |lines| <= |old(lines)|
    {
      while pending == []
        invariant Valid()
        invariant Stream() == old(Stream())
        invariant |lines| <= |old(lines)|
        decreases |lines|
      {
        if lines == [] {
          return;
        }
        var line := lines[0];
        lines := lines[1..];
        pending := Split(line);
        SplitTokens(line);
      }
    }

    /** `next_token`: the first token to come, or `None` only when the input holds no more. */
    method NextToken() returns (t: Option<string>)
      requires Valid()
      modifies this
      ensures Valid()
      ensures old(Stream()) == [] <==> t == None
      ensures t.Some? ==> t.value == old(Stream())[0] && IsToken(t.value)
      ensures Stream() == if old(Stream()) == [] then [] else old(Stream())[1..]
    {
      Prepare();
      if pending == [] {
        t := None;
      } else {
        t := Some(pending[0]);
        pending := pending[1..];
        assert Stream() == old(Stream())[1..];
      }
    }

    /** `is_empty`: whether no token is left; nothing is consumed. */
    method IsEmpty() returns (b: bool)
      requires Valid()
      modifies this
      ensures Valid()
      ensures b <==> old(Stream()) == []
      ensures Stream() == old(Stream())
    {
      Prepare();
      b := pending == [];
    }

    /** `Readable for T: FromStr`: one token, parsed by `parse`; no token or a rejected one panics. */
    method ReadValue<T>(parse: string -> Option<T>) returns (r: Result<T, ReadError>)
      requires Valid()
      modifies this
      ensures Valid()
      ensures old(Stream()) == [] ==> r == Err(NoToken) && Stream() == []
      ensures old(Stream()) != [] ==> Stream() == old(Stream())[1..]
      ensures old(Stream()) != [] ==> r == match parse(old(Stream())[0])
                                          case Some(v) => Ok(v)
                                          case None => Err(ParseFailure(old(Stream())[0]))
    {
      var t := NextToken();
      match t
      case None => r := Err(NoToken);
      case Some(tok) =>
        match parse(tok)
        case Some(v) => r := Ok(v);
        case None => r := Err(ParseFailure(tok));
    }

    /** `Chars`: the characters of one token. */
    method ReadChars() returns (r: Result<seq<char>, ReadError>)
      requires Valid()
      modifies this
      ensures Valid()
      ensures old(Stream()) == [] ==> r == Err(NoToken) && Stream() == []
      ensures old(Stream()) != [] ==> r == Ok(old(Stream())[0]) && Stream() == old(Stream())[1..]
    {
      var t := NextToken();
      if t.Some? {
        r := Ok(t.value);
      } else {
        r := Err(NoToken);
      }
    }

    /** `Bytes`: the UTF-8 bytes of one token. */
    method ReadBytes() returns (r: Result<seq<Utf8.Byte>, ReadError>)
      requires Valid()
      modifies this
      ensures Valid()
      ensures old(Stream()) == [] ==> r == Err(NoToken) && Stream() == []
      ensures old(Stream()) != [] ==> r == Ok(Utf8.Encode(old(Stream())[0])) && Stream() == old(Stream())[1..]
    {
      var t := NextToken();
      if t.Some? {
        r := Ok(Utf8.Encode(t.value));
      } else {
        r := Err(NoToken);
      }
    }

    /** `Usize1`: a `usize` token minus one. */
    method ReadUsize1() returns (r: Result<int, ReadError>)
      requires Valid()
      modifies this
      ensures Valid()
      ensures old(Stream()) == [] ==> r == Err(NoToken)
      ensures old(Stream()) != [] ==> Stream() == old(Stream())[1..]
      ensures old(Stream()) != [] ==> r == match ParseUsize(old(Stream())[0])
                                          case Some(n) => Usize1(n)
                                          case None => Err(ParseFailure(old(Stream())[0]))
    {
      var v := ReadValue(ParseUsize);
      match v
      case Ok(n) => r := Usize1(n);
      case Err(e) => r := Err(e);
    }

    /** `Isize1`: an `isize` token minus one. */
    method ReadIsize1() returns (r: Result<int, ReadError>)
      requires Valid()
      modifies this
      ensures Valid()
      ensures old(Stream()) == [] ==> r == Err(NoToken)
      ensures old(Stream()) != [] ==> Stream() == old(Stream())[1..]
      ensures old(Stream()) != [] ==> r == match ParseIsize(old(Stream())[0])
                                          case Some(n) => Isize1(n)
                                          case None => Err(ParseFailure(old(Stream())[0]))
    {
      var v := ReadValue(ParseIsize);
      match v
      case Ok(n) => r := Isize1(n);
      case Err(e) => r := Err(e);
    }
  }

}
