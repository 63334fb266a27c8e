/** Text helpers used by the source through JavaScript built-ins: decimal
    rendering of numbers (template strings), `parseInt` with radix 0, `String.prototype.split`
    with a text separator, `Array.prototype.join`, and the lexicographic order on
    strings that the default `Array.prototype.sort` uses. */
module Strings {
  import opened Wrappers

  predicate IsDigit(c: char) { '0' <= c <= '9' }

  predicate AllDigits(s: string) { forall i :: 0 <= i < |s| ==> IsDigit(s[i]) }

  function DigitChar(d: nat): (c: char)
    requires d < 10
    ensures IsDigit(c) && (c as int) - ('0' as int) == d
  {
    (('0' as int) + d) as char
  }

  /** Decimal text of a natural number, without leading zeros. */
  function NatToString(n: nat): (s: string)
    ensures |s| > 0 && AllDigits(s)
    ensures n > 0 ==> s[0] != '0'
    decreases n
  {
    if n < 10 then [DigitChar(n)] else NatToString(n / 10) + [DigitChar(n % 10)]
  }

  /** `${i}` for an integer: an optional minus sign and the decimal digits. */
  function IntToString(i: int): (s: string)
    ensures |s| > 0 && forall k :: 0 <= k < |s| ==> IsDigit(s[k]) || s[k] == '-'
  {
    if i < 0 then "-" + NatToString(-i) else NatToString(i)
  }

  /** Value of a run of decimal digits. */
  function DigitsValue(s: string): nat
    requires AllDigits(s)
  {
    if s == [] then 0 else DigitsValue(s[..|s| - 1]) * 10 + ((s[|s| - 1] as int) - ('0' as int))
  }

  /** Number of leading decimal digits of `s`. */
  function DigitPrefixLength(s: string): (n: nat)
    ensures n <= |s| && AllDigits(s[..n])
    ensures n < |s| ==> !IsDigit(s[n])
  {
    if s == [] || !IsDigit(s[0]) then 0
    else
      var n := 1 + DigitPrefixLength(s[1..]);
      assert s[..n] == [s[0]] + s[1..][..n - 1];
      n
  }

  /** The characters `parseInt` skips before a number: the white space and line
      terminators of ECMAScript (section 12.2 and 12.3 of ECMA-262). */
  predicate IsJsSpace(c: char) {
    c == ' ' || c == '\t' || c == '\n' || c == '\U{000B}' || c == '\U{000C}' || c == '\r' ||
    c == '\U{00A0}' || c == '\U{1680}' || ('\U{2000}' <= c <= '\U{200A}') || c == '\U{2028}' ||
    c == '\U{2029}' || c == '\U{202F}' || c == '\U{205F}' || c == '\U{3000}' || c == '\U{FEFF}'
  }

  /** `s` without its leading white space. */
  function TrimStart(s: string): (r: string)
    ensures |r| <= |s| && r == s[|s| - |r|..]
    ensures |r| > 0 ==> !IsJsSpace(r[0])
    ensures forall i :: 0 <= i < |s| - |r| ==> IsJsSpace(s[i])
  {
    if s != [] && IsJsSpace(s[0]) then
      var r := TrimStart(s[1..]);
      assert forall i :: 1 <= i < |s| - |r| ==> s[i] == s[1..][i - 1];
      r
    else s
  }

  predicate IsHexDigit(c: char) { IsDigit(c) || 'a' <= c <= 'f' || 'A' <= c <= 'F' }

  function HexValue(c: char): (d: nat)
    requires IsHexDigit(c)
    ensures d < 16
  {
    if IsDigit(c) then (c as int) - ('0' as int)
    else if 'a' <= c <= 'f' then (c as int) - ('a' as int) + 10
    else (c as int) - ('A' as int) + 10
  }

  /** Number of leading hexadecimal digits of `s`. */
  function HexPrefixLength(s: string): (n: nat)
    ensures n <= |s| && forall i :: 0 <= i < n ==> IsHexDigit(s[i])
    ensures n < |s| ==> !IsHexDigit(s[n])
  {
    if s == [] || !IsHexDigit(s[0]) then 0
    else
      var n := 1 + HexPrefixLength(s[1..]);
      assert forall i :: 1 <= i < n ==> s[i] == s[1..][i - 1];
      n
  }

  /** Value of a run of hexadecimal digits. */
  function HexDigitsValue(s: string): nat
    requires forall i :: 0 <= i < |s| ==> IsHexDigit(s[i])
  {
    if s == [] then 0 else HexDigitsValue(s[..|s| - 1]) * 16 + HexValue(s[|s| - 1])
  }

  /** Value of the digits `parseInt(s, 0)` reads after the sign: hexadecimal
      after a "0x" or "0X" prefix, decimal otherwise, each the longest run of
      digits; `None` stands for `NaN` (no digit). */
  function UnsignedValue(body: string): Option<nat> {
    if |body| >= 2 && body[0] == '0' && (body[1] == 'x' || body[1] == 'X') then
      var n := HexPrefixLength(body[2..]);
      if n == 0 then None else Some(HexDigitsValue(body[2..][..n]))
    else
      var n := DigitPrefixLength(body);
      if n == 0 then None else Some(DigitsValue(body[..n]))
  }

  /** `parseInt(s, 0)`: leading white space skipped, an optional sign, then the
      digits `UnsignedValue` reads; `None` stands for `NaN`. */
  function ParseInt(s: string): Option<int> {
    var t := TrimStart(s);
    var negative := |t| > 0 && t[0] == '-';
    var body := if |t| > 0 && (t[0] == '-' || t[0] == '+') then t[1..] else t;
    match UnsignedValue(body)
    case None => None
    case Some(v) => var m: int := v; Some(if negative then -m else m)
  }

  /** `parseInt(s, 0)` skips leading blanks. */
  lemma ParseIntSkipsBlanks()
    ensures ParseInt(" 3") == Some(3)
  {
    assert TrimStart(" 3") == "3";
    assert DigitPrefixLength("3") == 1;
    assert "3"[..1] == "3";
  }

  lemma HexDigitsOf1A()
    ensures HexPrefixLength("1A") == 2 && HexDigitsValue("1A") == 26
  {
    assert "1A"[1..] == "A";
    assert HexPrefixLength("A") == 1;
    assert "1A"[..1] == "1";
  }

  /** `parseInt(s, 0)` reads hexadecimal digits after "0x", after the sign. */
  lemma ParseIntHex()
    ensures ParseInt("-0x1A") == Some(-26)
  {
    HexDigitsOf1A();
    assert TrimStart("-0x1A") == "-0x1A";
    assert "-0x1A"[1..] == "0x1A";
    assert "0x1A"[2..] == "1A";
    assert "1A"[..2] == "1A";
  }

  /** A bare "0x" has no digit to read. */
  lemma ParseIntBareHex()
    ensures ParseInt("0x") == None
  {
    var t := "0x";
    assert !IsJsSpace(t[0]);
    assert TrimStart(t) == t;
    assert t[2..] == [];
    assert HexPrefixLength(t[2..]) == 0;
    assert UnsignedValue(t) == None;
  }

  /** `parseInt(s, 0)` stops at the first character that is not a digit. */
  lemma ParseIntStops()
    ensures ParseInt("3x") == Some(3)
  {
    assert TrimStart("3x") == "3x";
    assert DigitPrefixLength("3x") == 1;
    assert "3x"[..1] == "3";
  }

  /** A run of decimal digits that does not start "0x" reads as its value. */
  lemma UnsignedValueOfDigits(digits: string)
    requires |digits| > 0 && AllDigits(digits)
    ensures UnsignedValue(digits) == Some(DigitsValue(digits))
  {
    AllDigitsPrefix(digits);
    assert digits[..|digits|] == digits;
    if |digits| >= 2 {
      assert IsDigit(digits[1]);
    }
  }

  lemma {:induction false} DigitsValueOfNatToString(n: nat)
    ensures DigitsValue(NatToString(n)) == n
    decreases n
  {
    if n >= 10 {
      DigitsValueOfNatToString(n / 10);
      var s := NatToString(n / 10) + [DigitChar(n % 10)];
      assert s[..|s| - 1] == NatToString(n / 10);
    }
  }

  /** `parseInt` inverts the decimal rendering of every integer. */
  lemma ParseIntOfIntToString(i: int)
    ensures ParseInt(IntToString(i)) == Some(i)
  {
    var n: nat := if i < 0 then -i else i;
    var digits := NatToString(n);
    DigitsValueOfNatToString(n);
    UnsignedValueOfDigits(digits);
    var s := IntToString(i);
    assert !IsJsSpace(s[0]);
    assert TrimStart(s) == s;
    if i < 0 {
      assert s[1..] == digits;
    }
  }

  lemma {:induction false} AllDigitsPrefix(s: string)
    requires AllDigits(s)
    ensures DigitPrefixLength(s) == |s|
  {
    if s != [] {
      AllDigitsPrefix(s[1..]);
    }
  }

  /** `sep` occurs in `s` starting at position `j`. */
  predicate OccursAt(s: string, sep: string, j: int) {
    0 <= j && j + |sep| <= |s| && s[j..j + |sep|] == sep
  }

  lemma OccursAtShift(s: string, sep: string, j: int)
    requires |s| > 0 && 1 <= j
    ensures OccursAt(s, sep, j) == OccursAt(s[1..], sep, j - 1)
  {
    if j + |sep| <= |s| {
      assert s[j..j + |sep|] == s[1..][j - 1..j - 1 + |sep|];
    }
  }

  /** First position at which `sep` occurs in `s`, as `indexOf` finds it. */
  function IndexOf(s: string, sep: string): (r: Option<nat>)
    requires |sep| > 0
    ensures r.Some? ==> OccursAt(s, sep, r.value)
    ensures r.Some? ==> forall j :: 0 <= j < r.value ==> !OccursAt(s, sep, j)
    ensures r.None? ==> forall j :: !OccursAt(s, sep, j)
    decreases |s|
  {
    if |s| < |sep| then None
    else if s[..|sep|] == sep then Some(0)
    else match IndexOf(s[1..], sep)
      case None =>
        forall j ensures !OccursAt(s, sep, j) {
          if j >= 1 { OccursAtShift(s, sep, j); }
        }
        None
      case Some(k) =>
        forall j | 0 <= j <= k + 1 ensures OccursAt(s, sep, j) == (j == k + 1) {
          if j >= 1 { OccursAtShift(s, sep, j); }
        }
        Some(k + 1)
  }

  predicate Contains(s: string, sep: string)
    requires |sep| > 0
  {
    IndexOf(s, sep).Some?
  }

  /** `s.split(sep)`: the pieces between non-overlapping occurrences, left to right. */
  function Split(s: string, sep: string): (pieces: seq<string>)
    requires |sep| > 0
    ensures |pieces| > 0
    decreases |s|
  {
    match IndexOf(s, sep)
    case None => [s]
    case Some(i) => [s[..i]] + Split(s[i + |sep|..], sep)
  }

  /** `xs.join(sep)`; the empty list joins to the empty text. */
  function Join(xs: seq<string>, sep: string): string {
    if |xs| == 0 then "" else if |xs| == 1 then xs[0] else xs[0] + sep + Join(xs[1..], sep)
  }

  /** If no character of `a` starts `sep`, the first occurrence of `sep` in
      `a + sep + t` is the one right after `a`. */
  lemma {:induction false} IndexOfAfterPrefix(a: string, sep: string, t: string)
    requires |sep| > 0
    requires forall k :: 0 <= k < |a| ==> a[k] != sep[0]
    ensures IndexOf(a + sep + t, sep) == Some(|a|)
    decreases |a|
  {
    var s := a + sep + t;
    if |a| == 0 {
      assert s[..|sep|] == sep;
    } else {
      assert s[0] == a[0] != sep[0];
      assert s[..|sep|] != sep;
      IndexOfAfterPrefix(a[1..], sep, t);
      assert s[1..] == a[1..] + sep + t;
    }
  }

  /** Splitting a comma-free list joined by one separator character gives it back. */
  lemma {:induction false} SplitJoin(xs: seq<string>, c: char)
    requires |xs| > 0
    requires forall i :: 0 <= i < |xs| ==> !Contains(xs[i], [c])
    ensures Split(Join(xs, [c]), [c]) == xs
  {
    if |xs| == 1 {
      assert Join(xs, [c]) == xs[0];
    } else {
      forall k | 0 <= k < |xs[0]| ensures xs[0][k] != c {
        assert xs[0][k..k + 1] == [xs[0][k]];
        assert !OccursAt(xs[0], [c], k);
      }
      IndexOfAfterPrefix(xs[0], [c], Join(xs[1..], [c]));
      var s := Join(xs, [c]);
      assert s == xs[0] + [c] + Join(xs[1..], [c]);
      assert s[..|xs[0]|] == xs[0];
      assert s[|xs[0]| + 1..] == Join(xs[1..], [c]);
      SplitJoin(xs[1..], c);
    }
  }

  /** Code-point (lexicographic) order on text. It stands for the order the
      default `Array.prototype.sort` and `<` put strings in, which compare UTF-16
      code units; the two orders differ only on characters above U+FFFF. */
  predicate LexLess(a: string, b: string)
    decreases |a|
  {
    if |a| == 0 then |b| > 0
    else if |b| == 0 then false
    else if a[0] != b[0] then a[0] < b[0]
    else LexLess(a[1..], b[1..])
  }

  lemma {:induction false} LexLessIrreflexive(a: string)
    ensures !LexLess(a, a)
    decreases |a|
  {
    if |a| > 0 { LexLessIrreflexive(a[1..]); }
  }

  lemma {:induction false} LexLessTransitive(a: string, b: string, c: string)
    requires LexLess(a, b) && LexLess(b, c)
    ensures LexLess(a, c)
    decreases |a|
  {
    if |a| > 0 && |b| > 0 && |c| > 0 && a[0] == b[0] && b[0] == c[0] {
      LexLessTransitive(a[1..], b[1..], c[1..]);
    }
  }

  lemma {:induction false} LexLessTotal(a: string, b: string)
    requires a != b
    ensures LexLess(a, b) || LexLess(b, a)
    decreases |a|
  {
    if |a| > 0 && |b| > 0 && a[0] == b[0] {
      assert a == [a[0]] + a[1..] && b == [b[0]] + b[1..];
      LexLessTotal(a[1..], b[1..]);
    }
  }
}
