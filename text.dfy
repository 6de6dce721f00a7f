/**
 * The string helpers the main process and the renderer use: JavaScript's
 * `trim`, `toLowerCase`, `includes`, `substring`-based truncation, the decimal
 * rendering of a number in a template literal and `parseInt`.
 */
module Text {
  import opened Wrappers

  /** The characters JavaScript's `trim` and the `\s` regex class treat as white space. */
  predicate IsJsWhitespace(c: char) {
    var k := c as int;
    (0x09 <= k <= 0x0D) || k == 0x20 || k == 0xA0 || k == 0x1680 || (0x2000 <= k <= 0x200A)
    || k == 0x2028 || k == 0x2029 || k == 0x202F || k == 0x205F || k == 0x3000 || k == 0xFEFF
  }

  /** The characters the regex `.` does not match. */
  predicate IsLineTerminator(c: char) {
    var k := c as int;
    k == 0x0A || k == 0x0D || k == 0x2028 || k == 0x2029
  }

  /** Every character of `s` is white space (true of the empty string). */
  predicate IsBlank(s: string) {
    forall i :: 0 <= i < |s| ==> IsJsWhitespace(s[i])
  }

  function TrimStart(s: string): (r: string)
    ensures |r| <= |s| && r == s[|s| - |r|..]
    ensures r == [] || !IsJsWhitespace(r[0])
    ensures IsBlank(s[..|s| - |r|])
  {
    if s == [] || !IsJsWhitespace(s[0]) then s
    else
      var r := TrimStart(s[1..]);
      assert s[1..][..|s| - 1 - |r|] == s[1..|s| - |r|];
      r
  }

  function TrimEnd(s: string): (r: string)
    ensures |r| <= |s| && r == s[..|r|]
    ensures r == [] || !IsJsWhitespace(r[|r| - 1])
    ensures IsBlank(s[|r|..])
  {
    if s == [] || !IsJsWhitespace(s[|s| - 1]) then s
    else
      var r := TrimEnd(s[..|s| - 1]);
      assert s[..|s| - 1][|r|..] == s[|r|..|s| - 1];
      r
  }

  /** `String.prototype.trim`: white space removed from both ends. */
  function Trim(s: string): string {
    TrimEnd(TrimStart(s))
  }

  /** What `trim` leaves is empty or begins and ends with a character that is not white space. */
  lemma TrimEnds(s: string)
    ensures Trim(s) == [] || (!IsJsWhitespace(Trim(s)[0]) && !IsJsWhitespace(Trim(s)[|Trim(s)| - 1]))
  {
    var t := TrimStart(s);
    var r := TrimEnd(t);
    assert r == [] || r[0] == t[0];
  }

  /** `s.trim()` is falsy exactly when `s` is all white space. */
  lemma TrimEmptyIffBlank(s: string)
    ensures Trim(s) == [] <==> IsBlank(s)
  {
    var t := TrimStart(s);
    if Trim(s) == [] {
      assert IsBlank(t[..0]) && t[0..] == t;
      assert s == s[..|s| - |t|] + t;
    } else {
      var r := Trim(s);
      assert r == t[..|r|];
      assert r[0] == t[0] && t[0] == s[|s| - |t|];
    }
  }

  /** ASCII lower-casing of one character. */
  function LowerChar(c: char): char {
    if 'A' <= c <= 'Z' then (c as int + 32) as char else c
  }

  /** `toLowerCase`, on the ASCII letters. */
  function Lower(s: string): (r: string)
    ensures |r| == |s|
    ensures forall i :: 0 <= i < |s| ==> r[i] == LowerChar(s[i])
  {
    if s == [] then [] else [LowerChar(s[0])] + Lower(s[1..])
  }

  /** `p` occurs in `s` starting at index `i`. */
  predicate OccursAt(s: string, p: string, i: int) {
    0 <= i && i + |p| <= |s| && s[i..i + |p|] == p
  }

  /** `String.prototype.includes`. */
  function Includes(s: string, p: string): (b: bool)
    ensures b <==> exists i :: OccursAt(s, p, i)
  {
    if |p| > |s| then false
    else if s[..|p|] == p then assert OccursAt(s, p, 0); true
    else
      var b := Includes(s[1..], p);
      assert forall i :: OccursAt(s[1..], p, i) ==> OccursAt(s, p, i + 1) by {
        forall i | OccursAt(s[1..], p, i) ensures OccursAt(s, p, i + 1) {
          assert s[1..][i..i + |p|] == s[i + 1..i + 1 + |p|];
        }
      }
      assert forall i :: OccursAt(s, p, i) && i > 0 ==> OccursAt(s[1..], p, i - 1) by {
        forall i | OccursAt(s, p, i) && i > 0 ensures OccursAt(s[1..], p, i - 1) {
          assert s[1..][i - 1..i - 1 + |p|] == s[i..i + |p|];
        }
      }
      b
  }

  /**
   * `truncateText(text, maxLength)`: the text itself when it fits, otherwise
   * its first `maxLength` characters followed by an ellipsis.
   */
  function Truncate(text: string, maxLength: nat): (r: string)
    ensures |text| <= maxLength ==> r == text
    ensures |text| > maxLength ==> |r| == maxLength + 3 && r[..maxLength] == text[..maxLength] && r[maxLength..] == "..."
  {
    if |text| <= maxLength then text else text[..maxLength] + "..."
  }

  function DigitChar(d: nat): char
    requires d < 10
  {
    ['0', '1', '2', '3', '4', '5', '6', '7', '8', '9'][d]
  }

  /** The decimal rendering of a non-negative integer, as `${n}` writes it. */
  function Decimal(n: nat): (r: string)
    ensures r != [] && forall i :: 0 <= i < |r| ==> '0' <= r[i] <= '9'
  {
    if n < 10 then [DigitChar(n)] else Decimal(n / 10) + [DigitChar(n % 10)]
  }

  function DigitValue(c: char, radix: nat): Option<nat> {
    if '0' <= c <= '9' && (c as int - '0' as int) < radix then Some(c as int - '0' as int)
    else if 'a' <= c <= 'z' && (c as int - 'a' as int + 10) < radix then Some(c as int - 'a' as int + 10)
    else if 'A' <= c <= 'Z' && (c as int - 'A' as int + 10) < radix then Some(c as int - 'A' as int + 10)
    else None
  }

  /** The number of leading characters of `s` that are digits in `radix`. */
  function DigitRun(s: string, radix: nat): (n: nat)
    ensures n <= |s|
    ensures forall i :: 0 <= i < n ==> DigitValue(s[i], radix).Some?
  {
    if s != [] && DigitValue(s[0], radix).Some? then 1 + DigitRun(s[1..], radix) else 0
  }

  lemma ProductIsNat(a: nat, b: nat)
    ensures a * b >= 0
  {
  }

  /** The value of a string of digits, most significant first. */
  function DigitsValue(s: string, radix: nat): nat
    requires forall i :: 0 <= i < |s| ==> DigitValue(s[i], radix).Some?
  {
    if s == [] then 0
    else
      var init := s[..|s| - 1];
      assert forall i | 0 <= i < |init| :: init[i] == s[i];
      var high := DigitsValue(init, radix);
      ProductIsNat(high, radix);
      high * radix + DigitValue(s[|s| - 1], radix).value
  }

  /** The value of the longest run of `radix` digits at the head of `w`; `None` when there is none. */
  function ParseDigits(w: string, radix: nat): Option<nat> {
    var n := DigitRun(w, radix);
    if n == 0 then None else Some(DigitsValue(w[..n], radix))
  }

  /** An unsigned number: a `0x`/`0X` prefix selects base 16, anything else is base 10. */
  function ParseMagnitude(u: string): Option<nat> {
    if |u| >= 2 && u[0] == '0' && (u[1] == 'x' || u[1] == 'X') then ParseDigits(u[2..], 16)
    else ParseDigits(u, 10)
  }

  /** Every number `parseInt` reads holds a decimal digit: base 16 needs the `0x` prefix. */
  lemma MagnitudeHasDigit(u: string)
    ensures ParseMagnitude(u).Some? ==> exists c | c in u :: '0' <= c <= '9'
  {
    if |u| >= 2 && u[0] == '0' && (u[1] == 'x' || u[1] == 'X') {
      assert u[0] in u;
    } else if ParseMagnitude(u).Some? {
      assert DigitValue(u[0], 10).Some?;
      assert u[0] in u;
    }
  }

  /** The same after a sign character. */
  lemma SignedHasDigit(t: string)
    ensures ParseMagnitude(t).Some? ==> exists c | c in t :: '0' <= c <= '9'
    ensures t != [] && ParseMagnitude(t[1..]).Some? ==> exists c | c in t :: '0' <= c <= '9'
  {
    MagnitudeHasDigit(t);
    if t != [] {
      MagnitudeHasDigit(t[1..]);
      assert forall c | c in t[1..] :: c in t;
    }
  }

  /**
   * `parseInt(s)` without a radix: leading white space, an optional sign, then
   * an unsigned number; `None` stands for `NaN` (no digit at all).
   */
  function ParseInt(s: string): (r: Option<int>)
    ensures IsBlank(s) ==> r.None?
    ensures r.Some? && r.value < 0 ==> TrimStart(s) != [] && TrimStart(s)[0] == '-'
    ensures r.Some? ==> exists c | c in s :: '0' <= c <= '9'
  {
    var t := TrimStart(s);
    SignedHasDigit(t);
    assert forall c | c in t :: c in s;
    if t != [] && t[0] == '-' then
      match ParseMagnitude(t[1..])
      case Some(v) => var m: int := v; Some(-m)
      case None => None
    else if t != [] && t[0] == '+' then
      match ParseMagnitude(t[1..])
      case Some(v) => Some(v)
      case None => None
    else
      match ParseMagnitude(t)
      case Some(v) => Some(v)
      case None => None
  }

  lemma {:induction false} DecimalDigits(n: nat)
    ensures forall i :: 0 <= i < |Decimal(n)| ==> DigitValue(Decimal(n)[i], 10).Some?
    ensures DigitsValue(Decimal(n), 10) == n
  {
    if n >= 10 {
      DecimalDigits(n / 10);
      var d := Decimal(n);
      assert d[..|d| - 1] == Decimal(n / 10);
    }
  }

  lemma {:induction false} DigitRunOfDigits(s: string, radix: nat)
    requires forall i :: 0 <= i < |s| ==> DigitValue(s[i], radix).Some?
    ensures DigitRun(s, radix) == |s|
  {
    if s != [] {
      DigitRunOfDigits(s[1..], radix);
    }
  }

  lemma DecimalDigitsParse(n: nat)
    ensures ParseDigits(Decimal(n), 10) == Some(n)
  {
    var d := Decimal(n);
    DecimalDigits(n);
    DigitRunOfDigits(d, 10);
    assert d[..|d|] == d;
  }

  /** A decimal rendering has no hexadecimal prefix, so it is read in base 10. */
  lemma MagnitudeOfDecimal(n: nat)
    ensures ParseMagnitude(Decimal(n)) == Some(n)
  {
    var d := Decimal(n);
    if |d| >= 2 {
      assert '0' <= d[1] <= '9';
    }
    DecimalDigitsParse(n);
  }

  /** The decimal rendering of an id parses back to that id. */
  lemma ParseIntDecimal(n: nat)
    ensures ParseInt(Decimal(n)) == Some(n)
  {
    var d := Decimal(n);
    assert '0' <= d[0] <= '9';
    assert !IsJsWhitespace(d[0]);
    assert TrimStart(d) == d;
    MagnitudeOfDecimal(n);
  }
}
