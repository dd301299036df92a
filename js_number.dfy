/** JavaScript's global `parseInt(string)` with no radix argument, the only
    number parsing the client pages do: leading white space is skipped, an
    optional sign is read, a `0x`/`0X` prefix selects base 16, and the longest
    run of digits that follows is the value; no digit at all gives `NaN`
    (here `None`). */
module JsNumber {
  import opened Common

  /** ECMAScript white space and line terminators (tab, VT, FF, space, NBSP,
      BOM, the space separators of category Zs, LF, CR, LS, PS). */
  predicate IsJsWhitespace(c: char) {
    c == '\t' || c == '\U{B}' || c == '\U{C}' || c == ' ' || c == '\U{A0}' || c == '\U{FEFF}'
    || c == '\U{1680}' || ('\U{2000}' <= c <= '\U{200A}') || c == '\U{202F}' || c == '\U{205F}'
    || c == '\U{3000}' || c == '\n' || c == '\r' || c == '\U{2028}' || c == '\U{2029}'
  }

  /** `s` without its leading white space. */
  function TrimStart(s: string): (r: string)
    ensures |r| <= |s|
    ensures r == [] || !IsJsWhitespace(r[0])
    ensures forall c :: c in r ==> c in s
  {
    if s != [] && IsJsWhitespace(s[0]) then TrimStart(s[1..]) else s
  }

  predicate IsDecimalDigit(c: char) { '0' <= c <= '9' }

  /** The value of `c` as a decimal digit, or as a hexadecimal one when `hex`. */
  function Digit(c: char, hex: bool): (d: Option<nat>)
    ensures d.Some? ==> d.value < (if hex then 16 else 10)
    ensures !hex ==> (d.Some? <==> IsDecimalDigit(c))
  {
    if '0' <= c <= '9' then Some(c as int - '0' as int)
    else if hex && 'a' <= c <= 'f' then Some(c as int - 'a' as int + 10)
    else if hex && 'A' <= c <= 'F' then Some(c as int - 'A' as int + 10)
    else None
  }

  /** How many leading characters of `s` are digits. */
  function RunLength(s: string, hex: bool): (n: nat)
    ensures n <= |s|
  {
    if s == [] || Digit(s[0], hex).None? then 0 else 1 + RunLength(s[1..], hex)
  }

  /** The first `n` digits of `s` read onto `acc`, most significant first. */
  function RunValue(s: string, hex: bool, n: nat, acc: nat): nat
    requires n <= RunLength(s, hex)
  {
    if n == 0 then acc
    else RunValue(s[1..], hex, n - 1, acc * (if hex then 16 else 10) + Digit(s[0], hex).value)
  }

  predicate HasHexPrefix(s: string) {
    |s| >= 2 && s[0] == '0' && (s[1] == 'x' || s[1] == 'X')
  }

  /** `t` without its leading sign, if it has one. */
  function Unsigned(t: string): (u: string)
    ensures u == t || (t != [] && u == t[1..])
  {
    if t != [] && (t[0] == '-' || t[0] == '+') then t[1..] else t
  }

  /** `parseInt(s)`: `None` stands for `NaN`. */
  function ParseInt(s: string): (r: Option<int>)
  {
    var t := TrimStart(s);
    var negative := t != [] && t[0] == '-';
    var u := Unsigned(t);
    var hex := HasHexPrefix(u);
    var digits := if hex then u[2..] else u;
    var n := RunLength(digits, hex);
    if n == 0 then None
    else
      var v: int := RunValue(digits, hex, n, 0);
      Some(if negative then -v else v)
  }

  /** A text without a decimal digit is `NaN`: a hexadecimal number needs its `0`. */
  lemma ParseIntNeedsDigit(s: string)
    requires forall i :: 0 <= i < |s| ==> !IsDecimalDigit(s[i])
    ensures ParseInt(s).None?
  {
    var t := TrimStart(s);
    var u := Unsigned(t);
    if u != [] {
      assert u[0] in t;
      assert !IsDecimalDigit(u[0]);
    }
  }

  function DecimalChar(d: nat): (c: char)
    requires d < 10
    ensures IsDecimalDigit(c) && Digit(c, false) == Some(d)
  {
    ('0' as int + d) as char
  }

  predicate AllDecimal(s: string) {
    forall i :: 0 <= i < |s| ==> IsDecimalDigit(s[i])
  }

  /** The decimal numeral of `n` without leading zeros, as a number input holds it. */
  function Numeral(n: nat): (s: string)
    ensures s != [] && AllDecimal(s)
  {
    if n < 10 then [DecimalChar(n)] else Numeral(n / 10) + [DecimalChar(n % 10)]
  }

  lemma AllDecimalTail(s: string)
    requires s != [] && AllDecimal(s)
    ensures AllDecimal(s[1..])
  {
    forall i | 0 <= i < |s[1..]| ensures IsDecimalDigit(s[1..][i]) {
      assert s[1..][i] == s[i + 1];
    }
  }

  /** A string made only of decimal digits is one run. */
  lemma {:induction false} DecimalRun(s: string)
    requires AllDecimal(s)
    ensures RunLength(s, false) == |s|
  {
    if s != [] {
      AllDecimalTail(s);
      DecimalRun(s[1..]);
    }
  }

  /** Reading `a + b` is reading `b` onto what `a` read. */
  lemma {:induction false} RunValueAppend(a: string, b: string, acc: nat)
    requires AllDecimal(a) && AllDecimal(b) && AllDecimal(a + b)
    requires RunLength(a, false) == |a| && RunLength(b, false) == |b| && RunLength(a + b, false) == |a + b|
    ensures RunValue(a + b, false, |a| + |b|, acc) == RunValue(b, false, |b|, RunValue(a, false, |a|, acc))
  {
    if a != [] {
      var acc' := acc * 10 + Digit(a[0], false).value;
      assert (a + b)[1..] == a[1..] + b;
      AllDecimalTail(a);
      AllDecimalTail(a + b);
      DecimalRun(a[1..]);
      RunValueAppend(a[1..], b, acc');
    } else {
      assert a + b == b;
    }
  }

  /** Every numeral reads back as its number. */
  lemma {:induction false} NumeralValue(n: nat)
    ensures RunLength(Numeral(n), false) == |Numeral(n)|
    ensures RunValue(Numeral(n), false, |Numeral(n)|, 0) == n
  {
    DecimalRun(Numeral(n));
    if n >= 10 {
      var a := Numeral(n / 10);
      var c := [DecimalChar(n % 10)];
      NumeralValue(n / 10);
      DecimalRun(c);
      RunValueAppend(a, c, 0);
      assert RunValue(c, false, 1, n / 10) == (n / 10) * 10 + n % 10;
    }
  }

  /** A digit run has nothing to trim, no sign and no hexadecimal prefix. */
  lemma DecimalShape(s: string)
    requires s != [] && AllDecimal(s)
    ensures TrimStart(s) == s && Unsigned(s) == s && !HasHexPrefix(s) && s[0] != '-'
  {
    assert IsDecimalDigit(s[0]);
    if |s| >= 2 { assert IsDecimalDigit(s[1]); }
  }

  /** A minus sign before a digit run stays untrimmed and is read as the sign. */
  lemma NegativeShape(s: string)
    requires s != [] && AllDecimal(s)
    ensures TrimStart(['-'] + s) == ['-'] + s && Unsigned(['-'] + s) == s && !HasHexPrefix(s)
  {
    var t := ['-'] + s;
    assert t[1..] == s;
    if |s| >= 2 { assert IsDecimalDigit(s[1]); }
  }

  /** `parseInt` reads back every numeral, and a minus sign in front negates it:
      the round trip of a number input. */
  lemma ParseIntNumeral(n: nat)
    ensures ParseInt(Numeral(n)) == Some(n)
    ensures ParseInt(['-'] + Numeral(n)) == Some(0 - n)
  {
    NumeralValue(n);
    DecimalShape(Numeral(n));
    NegativeShape(Numeral(n));
  }
}
