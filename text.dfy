/**
 * The pieces of Rust's standard text handling the solver relies on:
 * `str::split_whitespace`, `str::parse::<usize>`, `str::parse::<i32>` and
 * `to_string` on integers, on strings of `char`.
 */
module Text {
  import opened Wrappers

  const USIZE_MAX: nat := 0xFFFF_FFFF_FFFF_FFFF
  const I32_MAX: nat := 0x7FFF_FFFF

  /** Rust's `char::is_whitespace`: the Unicode White_Space property. */
  predicate IsWhitespace(c: char) {
    ('\t' <= c <= '\r') || c == ' ' || c == '\U{85}' || c == '\U{A0}' || c == '\U{1680}'
    || ('\U{2000}' <= c <= '\U{200A}') || c == '\U{2028}' || c == '\U{2029}'
    || c == '\U{202F}' || c == '\U{205F}' || c == '\U{3000}'
  }

  /** A token of `split_whitespace`: nonempty, no whitespace inside. */
  predicate IsToken(t: string) {
    t != [] && forall i :: 0 <= i < |t| ==> !IsWhitespace(t[i])
  }

  /** The longest prefix of `s` that holds no whitespace. */
  function Word(s: string): (w: string)
    ensures |w| <= |s| && w == s[..|w|]
    ensures forall i :: 0 <= i < |w| ==> !IsWhitespace(w[i])
    ensures |w| < |s| ==> IsWhitespace(s[|w|])
  {
    if s == [] || IsWhitespace(s[0]) then [] else [s[0]] + Word(s[1..])
  }

  /** `s.split_whitespace()`: the maximal runs of non-whitespace, in order. */
  function Split(s: string): (ws: seq<string>)
    ensures forall k :: 0 <= k < |ws| ==> IsToken(ws[k])
    decreases |s|
  {
    if s == [] then []
    else if IsWhitespace(s[0]) then Split(s[1..])
    else
      var w := Word(s);
      [w] + Split(s[|w|..])
  }

  lemma {:induction false} WordAppend(x: string, y: string)
    requires |Word(x)| < |x|
    ensures Word(x + y) == Word(x)
  {
    if !IsWhitespace(x[0]) {
      assert (x + y)[1..] == x[1..] + y;
      WordAppend(x[1..], y);
    }
  }

  /** Splitting distributes over a concatenation whose left part ends at whitespace. */
  lemma {:induction false} SplitAppend(x: string, y: string)
    requires x == [] || IsWhitespace(x[|x| - 1])
    ensures Split(x + y) == Split(x) + Split(y)
    decreases |x|
  {
    if x == [] {
      assert x + y == y;
    } else if IsWhitespace(x[0]) {
      var rest := x[1..];
      assert rest == [] || IsWhitespace(rest[|rest| - 1]) by {
        if rest != [] { assert rest[|rest| - 1] == x[|x| - 1]; }
      }
      SplitAppend(rest, y);
      SplitSkip(x, y);
    } else {
      var rest := x[|Word(x)|..];
      SplitWordStep(x, y);
      SplitAppend(rest, y);
      SplitWordJoin(x, y);
    }
  }

  /** The whitespace case: leading whitespace is skipped, with or without a suffix. */
  lemma SplitSkip(x: string, y: string)
    requires x != [] && IsWhitespace(x[0])
    requires Split(x[1..] + y) == Split(x[1..]) + Split(y)
    ensures Split(x + y) == Split(x) + Split(y)
  {
    assert (x + y)[0] == x[0];
    assert (x + y)[1..] == x[1..] + y;
  }

  /** The word case: the leading word ends before the final whitespace. */
  lemma SplitWordStep(x: string, y: string)
    requires x != [] && !IsWhitespace(x[0]) && IsWhitespace(x[|x| - 1])
    ensures |Word(x)| < |x| && IsWhitespace(x[|Word(x)|..][|x| - |Word(x)| - 1])
  {
    var w := Word(x);
    assert forall i :: 0 <= i < |w| ==> !IsWhitespace(x[i]) by {
      assert forall i :: 0 <= i < |w| ==> w[i] == x[i];
    }
  }

  /** The word case: the leading word is split off the same way with a suffix. */
  lemma SplitWordJoin(x: string, y: string)
    requires x != [] && !IsWhitespace(x[0]) && |Word(x)| < |x|
    requires Split(x[|Word(x)|..] + y) == Split(x[|Word(x)|..]) + Split(y)
    ensures Split(x + y) == Split(x) + Split(y)
  {
    var w := Word(x);
    WordAppend(x, y);
    assert (x + y)[0] == x[0];
    assert (x + y)[|w|..] == x[|w|..] + y;
  }

  /** A token followed by one blank splits back into that token alone. */
  lemma SplitToken(t: string)
    requires IsToken(t)
    ensures Split(t + " ") == [t]
  {
    WordOfToken(t, " ");
    assert (t + " ")[|t|..] == " ";
    assert Split(" ") == Split(" "[1..]);
  }

  lemma {:induction false} WordOfToken(t: string, rest: string)
    requires forall i :: 0 <= i < |t| ==> !IsWhitespace(t[i])
    requires rest == [] || IsWhitespace(rest[0])
    ensures Word(t + rest) == t
  {
    if t == [] {
      assert t + rest == rest;
    } else {
      assert (t + rest)[1..] == t[1..] + rest;
      WordOfToken(t[1..], rest);
    }
  }

  predicate IsDigit(c: char) {
    '0' <= c <= '9'
  }

  predicate AllDigits(s: string) {
    forall i :: 0 <= i < |s| ==> IsDigit(s[i])
  }

  function DigitChar(d: nat): (c: char)
    requires d < 10
    ensures IsDigit(c) && c as int - '0' as int == d
  {
    ('0' as int + d) as char
  }

  /** The decimal value of a string of digits, read left to right. */
  function DigitsValue(s: string): nat
    requires AllDigits(s)
  {
    if s == [] then 0
    else DigitsValue(s[..|s| - 1]) * 10 + (s[|s| - 1] as int - '0' as int)
  }

  /** `n.to_string()` for an unsigned integer: decimal, no leading zeros. */
  function NatToString(n: nat): (s: string)
    ensures s != [] && AllDigits(s)
    ensures IsToken(s)
    decreases n
  {
    if n < 10 then [DigitChar(n)] else NatToString(n / 10) + [DigitChar(n % 10)]
  }

  /** `i.to_string()` for a signed integer. */
  function IntToString(i: int): (s: string)
    ensures IsToken(s)
  {
    if i < 0 then "-" + NatToString(-i) else NatToString(i)
  }

  lemma {:induction false} DigitsRoundTrip(n: nat)
    ensures DigitsValue(NatToString(n)) == n
    decreases n
  {
    if n >= 10 {
      var s := NatToString(n);
      assert s[..|s| - 1] == NatToString(n / 10);
      DigitsRoundTrip(n / 10);
    }
  }

  /**
   * `tok.parse::<usize>()`: an optional `+`, then at least one decimal digit,
   * with a value that fits 64 bits.
   */
  function ParseUsize(tok: string): (r: Option<nat>)
    ensures r.Some? ==> r.value <= USIZE_MAX
  {
    var body := if tok != [] && tok[0] == '+' then tok[1..] else tok;
    if body != [] && AllDigits(body) && DigitsValue(body) <= USIZE_MAX
    then Some(DigitsValue(body)) else None
  }

  /**
   * `tok.parse::<i32>()`: an optional `+` or `-`, then at least one decimal
   * digit, with a value in -2^31 .. 2^31 - 1.
   */
  function ParseI32(tok: string): (r: Option<int>)
    ensures r.Some? ==> -(I32_MAX as int) - 1 <= r.value <= I32_MAX
  {
    var none: Option<int> := None;
    var negative := tok != [] && tok[0] == '-';
    var body := if tok != [] && (tok[0] == '+' || tok[0] == '-') then tok[1..] else tok;
    if body == [] || !AllDigits(body) then none
    else if negative then
      (if DigitsValue(body) <= I32_MAX + 1 then Some(0 - DigitsValue(body) as int) else none)
    else
      (if DigitsValue(body) <= I32_MAX then Some(DigitsValue(body) as int) else none)
  }

  /** Printing a 32-bit integer and parsing it back gives the integer. */
  lemma ParseIntToString(i: int)
    requires -(I32_MAX as int) - 1 <= i <= I32_MAX
    ensures ParseI32(IntToString(i)) == Some(i)
  {
    if i < 0 {
      var digits := NatToString(-i);
      DigitsRoundTrip(-i);
      assert IntToString(i) == "-" + digits;
      assert ("-" + digits)[1..] == digits;
    } else {
      var digits := NatToString(i);
      DigitsRoundTrip(i);
      assert IntToString(i) == digits;
      assert IsDigit(digits[0]);
    }
  }

  /** Printing an unsigned integer and parsing it back gives the integer. */
  lemma ParseNatToString(n: nat)
    requires n <= USIZE_MAX
    ensures ParseUsize(NatToString(n)) == Some(n)
  {
    DigitsRoundTrip(n);
  }
}
