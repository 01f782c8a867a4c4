/**
  String helpers the handlers rely on: ASCII lower-casing (SQLite's `lower()`),
  substring search (`LIKE '%q%'`), JavaScript's `||` on optional strings, and
  JavaScript's `parseInt(s, 10)` together with the decimal rendering `String(n)`.
 */
module Text {
  import opened Wrappers

  /** SQLite's built-in `lower()` folds only the ASCII letters A-Z. */
  function LowerChar(c: char): char {
    if 'A' <= c <= 'Z' then (c as int + 32) as char else c
  }

  function Lower(s: string): (r: string)
    ensures |r| == |s|
    ensures forall i :: 0 <= i < |s| ==> r[i] == LowerChar(s[i])
  {
    if s == [] then [] else [LowerChar(s[0])] + Lower(s[1..])
  }

  /** Two names are the same name when they agree after lower-casing. */
  predicate SameName(a: string, b: string) {
    Lower(a) == Lower(b)
  }

  /** `needle` occurs in `hay` starting at index `i`. */
  ghost predicate OccursAt(hay: string, needle: string, i: int) {
    0 <= i && i + |needle| <= |hay| && hay[i..i + |needle|] == needle
  }

  /** The substring test behind `LIKE '%needle%'` (no wildcards inside `needle`). */
  function Contains(hay: string, needle: string): (b: bool)
    ensures b <==> exists i :: OccursAt(hay, needle, i)
    decreases |hay|
  {
    if |needle| <= |hay| && hay[..|needle|] == needle then
      assert OccursAt(hay, needle, 0);
      true
    else if hay == [] then
      false
    else
      var b := Contains(hay[1..], needle);
      assert b ==> exists i :: OccursAt(hay, needle, i) by {
        if b {
          var i :| OccursAt(hay[1..], needle, i);
          assert hay[1..][i..i + |needle|] == hay[i + 1..i + 1 + |needle|];
          assert OccursAt(hay, needle, i + 1);
        }
      }
      assert forall i :: OccursAt(hay, needle, i) ==> i > 0 && OccursAt(hay[1..], needle, i - 1) by {
        forall i | OccursAt(hay, needle, i)
          ensures i > 0 && OccursAt(hay[1..], needle, i - 1)
        {
          assert hay[1..][i - 1..i - 1 + |needle|] == hay[i..i + |needle|];
        }
      }
      b
  }

  /** JavaScript's `value || fallback` for a string that may be missing: the
      empty string is falsy, so it is replaced as well. */
  function OrElse(value: Option<string>, fallback: string): (r: string)
    ensures value.Some? && value.value != "" ==> r == value.value
    ensures value == None || value == Some("") ==> r == fallback
  {
    match value
    case Some(v) => if v != "" then v else fallback
    case None => fallback
  }

  // ---------------------------------------------------------------------
  // Decimal digits

  predicate IsDigit(c: char) {
    '0' <= c <= '9'
  }

  predicate AllDigits(s: string) {
    forall i :: 0 <= i < |s| ==> IsDigit(s[i])
  }

  function DigitValue(c: char): nat
    requires IsDigit(c)
  {
    c as int - '0' as int
  }

  function DigitChar(d: nat): (c: char)
    requires d < 10
    ensures IsDigit(c) && DigitValue(c) == d
  {
    ('0' as int + d) as char
  }

  /** The number a run of decimal digits spells, most significant digit first. */
  function DigitsValue(s: string): nat
    requires AllDigits(s)
  {
    if s == [] then 0 else 10 * DigitsValue(s[..|s| - 1]) + DigitValue(s[|s| - 1])
  }

  /** Decimal digits of a natural number, without leading zeros. */
  function NatString(n: nat): (r: string)
    ensures |r| > 0 && AllDigits(r)
    ensures DigitsValue(r) == n
    ensures r[0] == '0' <==> n == 0
    decreases n
  {
    if n < 10 then
      assert DigitValue(DigitChar(n)) == n;
      [DigitChar(n)]
    else
      var r := NatString(n / 10) + [DigitChar(n % 10)];
      assert r[..|r| - 1] == NatString(n / 10);
      assert r[0] == NatString(n / 10)[0];
      r
  }

  /** JavaScript's `String(n)` for an integer. */
  function DecimalString(n: int): (r: string)
    ensures r != [] && (r[0] == '-' <==> n < 0)
    ensures var digits := if n < 0 then r[1..] else r;
      digits != [] && AllDigits(digits) && DigitsValue(digits) == (if n < 0 then -n else n) &&
      (digits[0] == '0' ==> n == 0)
  {
    if n < 0 then "-" + NatString(-n) else NatString(n)
  }

  // ---------------------------------------------------------------------
  // parseInt(s, 10)

  /** The characters `parseInt` skips before the number: the ECMAScript
      WhiteSpace and LineTerminator code points. */
  predicate IsJsSpace(c: char) {
    var n := c as int;
    n == 0x09 || n == 0x0A || n == 0x0B || n == 0x0C || n == 0x0D || n == 0x20 ||
    n == 0xA0 || n == 0x1680 || (0x2000 <= n <= 0x200A) || n == 0x2028 ||
    n == 0x2029 || n == 0x202F || n == 0x205F || n == 0x3000 || n == 0xFEFF
  }

  function SkipSpace(s: string): (r: string)
    ensures |r| <= |s| && r == s[|s| - |r|..]
    ensures forall i :: 0 <= i < |s| - |r| ==> IsJsSpace(s[i])
    ensures r == [] || !IsJsSpace(r[0])
  {
    if |s| > 0 && IsJsSpace(s[0]) then
      var r := SkipSpace(s[1..]);
      assert forall i :: 1 <= i < |s| - |r| ==> s[i] == s[1..][i - 1];
      r
    else s
  }

  /** White space in front changes nothing after the skip. */
  lemma {:induction false} SkipSpaceAppend(w: string, s: string)
    requires forall i :: 0 <= i < |w| ==> IsJsSpace(w[i])
    ensures SkipSpace(w + s) == SkipSpace(s)
  {
    if w != [] {
      assert (w + s)[0] == w[0];
      assert (w + s)[1..] == w[1..] + s;
      SkipSpaceAppend(w[1..], s);
    } else {
      assert w + s == s;
    }
  }

  /** Length of the run of digits at the front of `s`. */
  function DigitRun(s: string): (k: nat)
    ensures k <= |s| && AllDigits(s[..k])
    ensures k < |s| ==> !IsDigit(s[k])
  {
    if |s| > 0 && IsDigit(s[0]) then
      var k := 1 + DigitRun(s[1..]);
      assert s[..k] == [s[0]] + s[1..][..k - 1];
      k
    else 0
  }

  /** JavaScript's `parseInt(s, 10)`: skip leading white space, read an
      optional sign and then the longest run of decimal digits; anything after
      that run is ignored. No digits at all gives NaN, modelled as `None`. */
  function ParseInt(s: string): Option<int> {
    ParseSigned(SkipSpace(s))
  }

  /** An optional sign and the digits after it. */
  function ParseSigned(t: string): Option<int> {
    if |t| > 0 && t[0] == '-' then
      match ParseDigits(t[1..])
      case None => None
      case Some(v) => Some(-(v as int))
    else if |t| > 0 && t[0] == '+' then ParseDigits(t[1..])
    else ParseDigits(t)
  }

  /** The value of the run of digits at the front of `u`, if there is one. */
  function ParseDigits(u: string): (r: Option<nat>)
    ensures r.None? <==> u == [] || !IsDigit(u[0])
  {
    var k := DigitRun(u);
    if k == 0 then None else Some(DigitsValue(u[..k]))
  }

  lemma {:induction false} DigitRunOfDigits(d: string, rest: string)
    requires AllDigits(d)
    requires rest == [] || !IsDigit(rest[0])
    ensures DigitRun(d + rest) == |d|
  {
    if d != [] {
      assert (d + rest)[1..] == d[1..] + rest;
      DigitRunOfDigits(d[1..], rest);
    } else {
      assert d + rest == rest;
    }
  }

  /** A run of digits, then something that is not a digit. */
  lemma ParseDigitsThen(d: string, rest: string)
    requires d != [] && AllDigits(d)
    requires rest == [] || !IsDigit(rest[0])
    ensures ParseDigits(d + rest) == Some(DigitsValue(d))
  {
    DigitRunOfDigits(d, rest);
    assert (d + rest)[..|d|] == d;
  }

  /** Text that starts with a digit is read as a run of digits. */
  lemma ParseIntUnsigned(s: string)
    requires |s| > 0 && IsDigit(s[0])
    ensures ParseInt(s) == ParseDigits(s)
  {
    assert !IsJsSpace(s[0]) && s[0] != '-' && s[0] != '+';
    assert SkipSpace(s) == s;
  }

  /** After a leading minus sign, `parseInt` negates what the digits say. */
  lemma ParseIntMinus(s: string)
    requires |s| > 0 && s[0] == '-'
    ensures ParseInt(s) == match ParseDigits(s[1..])
      case None => None
      case Some(v) => Some(-(v as int))
  {
    assert SkipSpace(s) == s;
  }

  /** `parseInt` reads back what `String(n)` wrote, whatever non-digit text
      follows it (so `parseInt("12abc")` is 12). */
  lemma ParseIntDecimal(n: int, rest: string)
    requires rest == [] || !IsDigit(rest[0])
    ensures ParseInt(DecimalString(n) + rest) == Some(n)
  {
    if n < 0 { ParseIntNegativeDecimal(n, rest); } else { ParseIntNatDecimal(n, rest); }
  }

  lemma ParseIntNatDecimal(n: nat, rest: string)
    requires rest == [] || !IsDigit(rest[0])
    ensures ParseInt(NatString(n) + rest) == Some(n)
  {
    var d := NatString(n);
    ParseIntUnsigned(d + rest);
    ParseDigitsThen(d, rest);
  }

  lemma ParseIntNegativeDecimal(n: int, rest: string)
    requires n < 0 && (rest == [] || !IsDigit(rest[0]))
    ensures ParseInt(DecimalString(n) + rest) == Some(n)
  {
    var d := NatString(-n);
    var s := DecimalString(n) + rest;
    MinusThenDigits(n, rest);
    ParseIntMinus(s);
    ParseDigitsThen(d, rest);
  }

  /** The text of a negative number is a minus sign and then its digits. */
  lemma MinusThenDigits(n: int, rest: string)
    requires n < 0
    ensures var s := DecimalString(n) + rest;
      |s| > 0 && s[0] == '-' && s[1..] == NatString(-n) + rest
  {
    var d := NatString(-n);
    var s := DecimalString(n) + rest;
    assert DecimalString(n) == "-" + d;
    assert s == "-" + (d + rest);
  }

  /** `parseInt` skips any leading white space. */
  lemma ParseIntSkipsSpace(w: string, s: string)
    requires forall i :: 0 <= i < |w| ==> IsJsSpace(w[i])
    ensures ParseInt(w + s) == ParseInt(s)
  {
    SkipSpaceAppend(w, s);
  }

  /** Once white space is skipped, `parseInt` gives NaN exactly when no digit
      follows the optional sign. */
  lemma ParseIntNaN(s: string)
    requires s == [] || !IsJsSpace(s[0])
    ensures ParseInt(s).None? <==>
      var u := if |s| > 0 && (s[0] == '-' || s[0] == '+') then s[1..] else s;
      u == [] || !IsDigit(u[0])
  {
    assert SkipSpace(s) == s;
  }
}
