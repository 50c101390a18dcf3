/**
 * Text primitives the commands rely on: Python's argument-less `str.strip()`,
 * fixed-width and minimal decimal digit strings, the plain decimal literals
 * that `Decimal(text)` accepts, and the ASCII case folding of SQLite's
 * `lower()`, which SQLAlchemy's `ilike` compares through.
 */
module Text {
  import opened Wrappers

  // ---------------------------------------------------------------------
  // Whitespace and stripping
  // ---------------------------------------------------------------------

  /** The code points for which Python's `str.isspace()` holds; `strip()` removes exactly these. */
  predicate IsSpace(c: char) {
    c == ' ' || ('\t' <= c <= '\r') || ('\U{1C}' <= c <= '\U{1F}')
    || c == '\U{85}' || c == '\U{A0}' || c == '\U{1680}'
    || ('\U{2000}' <= c <= '\U{200A}') || c == '\U{2028}' || c == '\U{2029}'
    || c == '\U{202F}' || c == '\U{205F}' || c == '\U{3000}'
  }

  predicate AllSpaces(s: string) {
    forall i :: 0 <= i < |s| ==> IsSpace(s[i])
  }

  /** A string with no whitespace at either end: what `strip()` returns. */
  predicate Stripped(s: string) {
    s == [] || (!IsSpace(s[0]) && !IsSpace(s[|s| - 1]))
  }

  /** The length of the run of whitespace that starts `s`. */
  function LeadingSpaces(s: string): (k: nat)
    ensures k <= |s|
    ensures forall i :: 0 <= i < k ==> IsSpace(s[i])
    ensures k < |s| ==> !IsSpace(s[k])
  {
    if |s| > 0 && IsSpace(s[0]) then 1 + LeadingSpaces(s[1..]) else 0
  }

  /** The length of the run of whitespace that ends `s`. */
  function TrailingSpaces(s: string): (k: nat)
    ensures k <= |s|
    ensures forall i :: |s| - k <= i < |s| ==> IsSpace(s[i])
    ensures k < |s| ==> !IsSpace(s[|s| - 1 - k])
  {
    if |s| > 0 && IsSpace(s[|s| - 1]) then 1 + TrailingSpaces(s[..|s| - 1]) else 0
  }

  /** Python's `s.strip()`: the text between the leading and the trailing run of whitespace. */
  function Strip(s: string): (r: string)
    ensures |r| <= |s|
    ensures Stripped(r)
  {
    var t := s[LeadingSpaces(s)..];
    t[..|t| - TrailingSpaces(t)]
  }

  lemma {:induction false} LeadingSpacesOfPadded(pre: string, rest: string)
    requires AllSpaces(pre)
    requires rest == [] || !IsSpace(rest[0])
    ensures LeadingSpaces(pre + rest) == |pre|
  {
    if pre != [] {
      assert (pre + rest)[1..] == pre[1..] + rest;
      LeadingSpacesOfPadded(pre[1..], rest);
    }
  }

  lemma {:induction false} TrailingSpacesOfPadded(rest: string, post: string)
    requires AllSpaces(post)
    requires rest == [] || !IsSpace(rest[|rest| - 1])
    ensures TrailingSpaces(rest + post) == |post|
  {
    if post != [] {
      var p := post[..|post| - 1];
      assert (rest + post)[..|rest + post| - 1] == rest + p;
      TrailingSpacesOfPadded(rest, p);
    }
  }

  /** Stripping undoes padding: surrounding a stripped core with whitespace and stripping gives the core back. */
  lemma StripOfPadded(pre: string, core: string, post: string)
    requires AllSpaces(pre) && AllSpaces(post)
    requires Stripped(core) && core != []
    ensures Strip(pre + core + post) == core
  {
    var s := pre + core + post;
    assert s == pre + (core + post);
    LeadingSpacesOfPadded(pre, core + post);
    assert s[|pre|..] == core + post;
    TrailingSpacesOfPadded(core, post);
    assert (core + post)[..|core|] == core;
  }

  /** An already stripped string is its own strip. */
  lemma StripOfStripped(s: string)
    requires Stripped(s)
    ensures Strip(s) == s
  {
    if s != [] {
      StripOfPadded([], s, []);
      assert [] + s + [] == s;
    }
  }

  /** `strip()` is idempotent. */
  lemma StripIdempotent(s: string)
    ensures Strip(Strip(s)) == Strip(s)
  {
    StripOfStripped(Strip(s));
  }

  /** `strip()` yields the empty string exactly for all-whitespace input. */
  lemma StripEmptyIffAllSpaces(s: string)
    ensures Strip(s) == [] <==> AllSpaces(s)
  {
    var k := LeadingSpaces(s);
    var t := s[k..];
    if !AllSpaces(s) {
      var j :| 0 <= j < |s| && !IsSpace(s[j]);
      assert k <= j;
      assert t[j - k] == s[j];
      assert TrailingSpaces(t) < |t|;
    }
  }

  // ---------------------------------------------------------------------
  // Decimal digits
  // ---------------------------------------------------------------------

  predicate IsDigit(c: char) {
    '0' <= c <= '9'
  }

  predicate AllDigits(s: string) {
    forall i :: 0 <= i < |s| ==> IsDigit(s[i])
  }

  function DigitValue(c: char): (n: nat)
    requires IsDigit(c)
    ensures n <= 9
  {
    c as int - '0' as int
  }

  function DigitChar(n: nat): (c: char)
    requires n <= 9
    ensures IsDigit(c) && DigitValue(c) == n
  {
    ('0' as int + n) as char
  }

  function Pow10(k: nat): (p: nat)
    ensures p >= 1
  {
    if k == 0 then 1 else 10 * Pow10(k - 1)
  }

  /** The number a string of decimal digits denotes (leading zeros allowed). */
  function NumberValue(s: string): (n: nat)
    requires AllDigits(s)
    ensures n < Pow10(|s|)
  {
    if s == [] then 0
    else
      var m := NumberValue(s[..|s| - 1]);
      assert m * 10 + 9 < Pow10(|s|) by {
        assert m + 1 <= Pow10(|s| - 1);
        assert (m + 1) * 10 <= Pow10(|s| - 1) * 10;
      }
      m * 10 + DigitValue(s[|s| - 1])
  }

  /** `n` written with exactly `width` digits, zero-padded on the left (Python's `{n:0Nd}` for `n < 10^width`). */
  function PadDigits(n: nat, width: nat): (s: string)
    ensures |s| == width && AllDigits(s)
    ensures n < Pow10(width) ==> NumberValue(s) == n
  {
    if width == 0 then []
    else
      var s := PadDigits(n / 10, width - 1) + [DigitChar(n % 10)];
      assert s[..|s| - 1] == PadDigits(n / 10, width - 1);
      assert n < Pow10(width) ==> n / 10 < Pow10(width - 1);
      s
  }

  /** Reading a digit string and writing it back at the same width gives the string itself. */
  lemma {:induction false} PadDigitsOfNumber(s: string)
    requires AllDigits(s)
    ensures PadDigits(NumberValue(s), |s|) == s
  {
    if s != [] {
      var init := s[..|s| - 1];
      var n := NumberValue(s);
      assert n / 10 == NumberValue(init) && n % 10 == DigitValue(s[|s| - 1]);
      PadDigitsOfNumber(init);
      assert DigitChar(n % 10) == s[|s| - 1];
      assert s == init + [s[|s| - 1]];
    }
  }

  /** `n` in minimal decimal notation (Python's `str(n)`). */
  function DecimalDigits(n: nat): (s: string)
    ensures |s| >= 1 && AllDigits(s)
  {
    if n < 10 then [DigitChar(n)] else DecimalDigits(n / 10) + [DigitChar(n % 10)]
  }

  /** `DecimalDigits` writes exactly the number it is given. */
  lemma {:induction false} DecimalDigitsValue(n: nat)
    ensures NumberValue(DecimalDigits(n)) == n
  {
    var s := DecimalDigits(n);
    if n >= 10 {
      assert s[..|s| - 1] == DecimalDigits(n / 10);
      DecimalDigitsValue(n / 10);
    }
  }

  // ---------------------------------------------------------------------
  // Plain decimal literals, as `Decimal(text)` reads them
  // ---------------------------------------------------------------------

  /** Index of the first '.' in `s`, or `|s|` when there is none. */
  function DotIndex(s: string): (k: nat)
    ensures k <= |s|
    ensures forall i :: 0 <= i < k ==> s[i] != '.'
    ensures k < |s| ==> s[k] == '.'
  {
    if s == [] then 0
    else if s[0] == '.' then 0
    else 1 + DotIndex(s[1..])
  }

  /** The value of the literal `whole.fraction`. */
  function LiteralValue(whole: string, fraction: string): (v: real)
    requires AllDigits(whole) && AllDigits(fraction)
    ensures v >= 0.0
  {
    NumberValue(whole) as real + FractionValue(fraction)
  }

  /** The value `0.d1d2...` of the digits after the point, taken one digit at a time. */
  function FractionValue(fraction: string): (v: real)
    requires AllDigits(fraction)
    ensures v >= 0.0
  {
    if fraction == [] then 0.0
    else (DigitValue(fraction[0]) as real + FractionValue(fraction[1..])) / 10.0
  }

  /** `n` with `k` zeros appended: `n * 10^k`, written so that the proofs below stay linear. */
  function ShiftInt(n: int, k: nat): (r: int)
  {
    if k == 0 then n else 10 * ShiftInt(n, k - 1)
  }

  /** `v * 10^k` on reals, in the same linear form. */
  function ShiftReal(v: real, k: nat): (r: real)
  {
    if k == 0 then v else 10.0 * ShiftReal(v, k - 1)
  }

  /** Reading a digit string from its first digit: that digit is worth `10^(number of digits after it)` times itself. */
  lemma {:induction false} NumberValueCons(c: char, t: string)
    requires IsDigit(c) && AllDigits(t)
    ensures NumberValue([c] + t) == ShiftInt(DigitValue(c), |t|) + NumberValue(t)
  {
    var s := [c] + t;
    if t == [] {
      assert s[..|s| - 1] == [];
    } else {
      var u := t[..|t| - 1];
      assert s[..|s| - 1] == [c] + u;
      assert s[|s| - 1] == t[|t| - 1];
      NumberValueCons(c, u);
    }
  }

  lemma {:induction false} ShiftRealOfInt(n: int, k: nat)
    ensures ShiftReal(n as real, k) == ShiftInt(n, k) as real
  {
    if k > 0 {
      ShiftRealOfInt(n, k - 1);
    }
  }

  lemma {:induction false} ShiftRealAdd(a: real, b: real, k: nat)
    ensures ShiftReal(a + b, k) == ShiftReal(a, k) + ShiftReal(b, k)
  {
    if k > 0 {
      ShiftRealAdd(a, b, k - 1);
    }
  }

  lemma {:induction false} ShiftRealTenth(v: real, k: nat)
    ensures ShiftReal(v / 10.0, k + 1) == ShiftReal(v, k)
  {
    if k > 0 {
      ShiftRealTenth(v, k - 1);
    }
  }

  lemma {:induction false} ShiftRealProduct(v: real, k: nat)
    ensures ShiftReal(v, k) == v * Pow10(k) as real
  {
    if k > 0 {
      ShiftRealProduct(v, k - 1);
      TenTimes(v, Pow10(k - 1) as real);
    }
  }

  lemma TenTimes(v: real, p: real)
    ensures 10.0 * (v * p) == v * (10.0 * p)
  {
  }

  /** Scaling the fraction digits' value by `10^len` gives the integer they spell. */
  lemma {:induction false} FractionValueScaled(f: string)
    requires AllDigits(f)
    ensures ShiftReal(FractionValue(f), |f|) == NumberValue(f) as real
  {
    if f != [] {
      var c, t := f[0], f[1..];
      assert f == [c] + t;
      FractionValueScaled(t);
      NumberValueCons(c, t);
      var d, x := DigitValue(c) as real, FractionValue(t);
      ShiftRealTenth(d + x, |t|);
      ShiftRealAdd(d, x, |t|);
      ShiftRealOfInt(DigitValue(c), |t|);
    }
  }

  /** The literal `whole.fraction` is worth `whole + fraction / 10^len(fraction)`. */
  lemma LiteralValueExact(whole: string, fraction: string)
    requires AllDigits(whole) && AllDigits(fraction)
    ensures LiteralValue(whole, fraction)
            == NumberValue(whole) as real + NumberValue(fraction) as real / Pow10(|fraction|) as real
  {
    FractionValueExact(fraction);
  }

  lemma FractionValueExact(f: string)
    requires AllDigits(f)
    ensures FractionValue(f) == NumberValue(f) as real / Pow10(|f|) as real
  {
    FractionValueScaled(f);
    ShiftRealQuotient(FractionValue(f), |f|);
  }

  lemma ShiftRealQuotient(v: real, k: nat)
    ensures v == ShiftReal(v, k) / Pow10(k) as real
  {
    ShiftRealProduct(v, k);
    DivideBack(v, ShiftReal(v, k), Pow10(k) as real);
  }

  lemma DivideBack(v: real, n: real, p: real)
    requires p > 0.0 && v * p == n
    ensures v == n / p
  {
  }

  /** Two fraction digits are read as that many hundredths. */
  lemma TwoDigitFraction(f: string)
    requires AllDigits(f) && |f| == 2
    ensures FractionValue(f) == NumberValue(f) as real / 100.0
  {
    var d0, d1 := DigitValue(f[0]), DigitValue(f[1]);
    assert f[1..][0] == f[1] && f[1..][1..] == [];
    assert FractionValue(f[1..]) == d1 as real / 10.0;
    assert FractionValue(f) == (d0 as real + d1 as real / 10.0) / 10.0;
    assert f[..1][0] == f[0] && f[..1][..0] == [];
    assert NumberValue(f[..1]) == d0;
    assert NumberValue(f) == d0 * 10 + d1;
  }

  /** The magnitude an unsigned plain literal denotes: digits with at most one '.', at least one digit in all. */
  function UnsignedValue(body: string): (r: Option<real>)
    ensures r.Some? ==> r.value >= 0.0
  {
    var k := DotIndex(body);
    var whole := body[..k];
    var fraction := if k < |body| then body[k + 1..] else [];
    if AllDigits(whole) && AllDigits(fraction) && |whole| + |fraction| >= 1 then
      Some(LiteralValue(whole, fraction))
    else
      None
  }

  /**
   * The value of `Decimal(text)` for a plain literal: surrounding whitespace,
   * an optional sign, then an unsigned literal. `None` stands for
   * `InvalidOperation`.
   */
  function ParseDecimal(text: string): (r: Option<real>)
    ensures r.Some? ==> |Strip(text)| > 0
  {
    var t := Strip(text);
    if |t| > 0 && t[0] == '-' then
      match UnsignedValue(t[1..])
      case Some(m) => Some(-m)
      case None => None
    else if |t| > 0 && t[0] == '+' then UnsignedValue(t[1..])
    else UnsignedValue(t)
  }

  lemma {:induction false} DotIndexOfDigits(d: string, rest: string)
    requires AllDigits(d)
    ensures DotIndex(d + "." + rest) == |d|
  {
    if d != [] {
      assert (d + "." + rest)[1..] == d[1..] + "." + rest;
      DotIndexOfDigits(d[1..], rest);
    }
  }

  lemma UnsignedValueOfPoint(w: string, f: string)
    requires AllDigits(w) && AllDigits(f) && |w| + |f| >= 1
    ensures UnsignedValue(w + "." + f) == Some(LiteralValue(w, f))
  {
    var s := w + "." + f;
    DotIndexOfDigits(w, f);
    var k := DotIndex(s);
    assert k == |w| < |s|;
    assert s[..k] == w;
    assert s[k + 1..] == f;
    var whole := s[..k];
    var fraction := if k < |s| then s[k + 1..] else [];
    assert whole == w && fraction == f;
  }

  lemma CentsSplit(n: nat)
    ensures (n / 100) as real + (n % 100) as real / 100.0 == n as real / 100.0
  {
    var q, m := n / 100, n % 100;
    assert n == q * 100 + m;
    assert n as real == q as real * 100.0 + m as real;
  }

  /** The literal `w.ff` written for `n` hundredths has the value `n / 100`. */
  lemma CentsLiteralValue(n: nat)
    ensures LiteralValue(DecimalDigits(n / 100), PadDigits(n % 100, 2)) == n as real / 100.0
  {
    assert Pow10(2) == 100 by { assert Pow10(1) == 10; }
    DecimalDigitsValue(n / 100);
    CentsLiteral(n, DecimalDigits(n / 100), PadDigits(n % 100, 2));
  }

  lemma CentsLiteral(n: nat, w: string, f: string)
    requires AllDigits(w) && AllDigits(f) && |f| == 2
    requires NumberValue(w) == n / 100 && NumberValue(f) == n % 100
    ensures LiteralValue(w, f) == n as real / 100.0
  {
    TwoDigitFraction(f);
    CentsSplit(n);
  }

  /** An unsigned literal with digits on both sides of the point is read as `whole.fraction`. */
  lemma ParsePointLiteral(text: string, whole: string, fraction: string, x: real)
    requires AllDigits(whole) && AllDigits(fraction) && |whole| >= 1 && |fraction| >= 1
    requires text == whole + "." + fraction && x == LiteralValue(whole, fraction)
    ensures ParseDecimal(text) == Some(x)
  {
    assert text[0] == whole[0] && text[|text| - 1] == fraction[|fraction| - 1];
    StripOfStripped(text);
    UnsignedValueOfPoint(whole, fraction);
  }

  /** A plain digit string is read as the integer it denotes. */
  lemma UnsignedValueOfDigits(digits: string)
    requires AllDigits(digits) && |digits| >= 1
    ensures UnsignedValue(digits) == Some(NumberValue(digits) as real)
  {
    DotIndexOfDigits2(digits);
    assert digits[..|digits|] == digits;
    assert LiteralValue(digits, []) == NumberValue(digits) as real;
  }

  /** A minus sign followed by digits is read as the negated integer. */
  lemma ParseNegativeInteger(text: string)
    requires |text| >= 2 && text[0] == '-' && AllDigits(text[1..])
    ensures ParseDecimal(text) == Some(-(NumberValue(text[1..]) as real))
  {
    assert text[|text| - 1] == text[1..][|text| - 2];
    StripOfStripped(text);
    UnsignedValueOfDigits(text[1..]);
  }

  lemma {:induction false} DotIndexOfDigits2(d: string)
    requires AllDigits(d)
    ensures DotIndex(d) == |d|
  {
    if d != [] {
      DotIndexOfDigits2(d[1..]);
    }
  }

  /** Any literal that starts with '-' denotes a value no greater than zero (`-0` included). */
  lemma NegativeLiteral(text: string)
    requires ParseDecimal(text).Some?
    requires |Strip(text)| > 0 && Strip(text)[0] == '-'
    ensures ParseDecimal(text).value <= 0.0
  {
  }

  // ---------------------------------------------------------------------
  // The grammar of the literals `Decimal` accepts here
  // ---------------------------------------------------------------------

  /** The signs allowed before a literal. */
  predicate IsSign(sign: string) {
    sign == "" || sign == "+" || sign == "-"
  }

  /** `m` with `sign` applied. */
  function Signed(sign: string, m: real): real {
    if sign == "-" then -m else m
  }

  /** The unsigned literal `whole`, or `whole.fraction` when it has a point. */
  function LiteralText(whole: string, point: bool, fraction: string): string {
    if point then whole + "." + fraction else whole
  }

  /** Digits with at most one point and at least one digit in all: `5`, `5.`, `.5`, `5.25`. */
  predicate PlainLiteral(whole: string, point: bool, fraction: string) {
    AllDigits(whole) && AllDigits(fraction) && |whole| + |fraction| >= 1 && (!point ==> fraction == [])
  }

  lemma UnsignedValueOfLiteral(whole: string, point: bool, fraction: string)
    requires PlainLiteral(whole, point, fraction)
    ensures UnsignedValue(LiteralText(whole, point, fraction)) == Some(LiteralValue(whole, fraction))
  {
    if point {
      UnsignedValueOfPoint(whole, fraction);
    } else {
      UnsignedValueOfDigits(whole);
      assert LiteralValue(whole, fraction) == NumberValue(whole) as real;
    }
  }

  /** A plain literal has no whitespace at either end and does not start with a sign. */
  lemma LiteralTextEnds(whole: string, point: bool, fraction: string)
    requires PlainLiteral(whole, point, fraction)
    ensures var b := LiteralText(whole, point, fraction);
            b != [] && Stripped(b) && b[0] != '-' && b[0] != '+'
  {
    var b := LiteralText(whole, point, fraction);
    if point {
      assert b == whole + ("." + fraction);
      if whole != [] {
        assert b[0] == whole[0];
      }
      if fraction != [] {
        assert b[|b| - 1] == fraction[|fraction| - 1];
      }
    }
  }

  /**
   * Every text of the form whitespace, optional sign, plain literal,
   * whitespace is read as the signed value of the literal: `5`, ` +5 `,
   * `5.`, `.5` and `-3.25` all parse.
   */
  lemma ParseDecimalAccepts(pre: string, sign: string, whole: string, point: bool, fraction: string, post: string)
    requires AllSpaces(pre) && AllSpaces(post) && IsSign(sign) && PlainLiteral(whole, point, fraction)
    ensures ParseDecimal(pre + sign + LiteralText(whole, point, fraction) + post)
            == Some(Signed(sign, LiteralValue(whole, fraction)))
  {
    var body := LiteralText(whole, point, fraction);
    var core := sign + body;
    LiteralTextEnds(whole, point, fraction);
    UnsignedValueOfLiteral(whole, point, fraction);
    assert core[|core| - 1] == body[|body| - 1];
    assert core[0] == if sign == "" then body[0] else sign[0];
    assert pre + sign + body + post == pre + core + post;
    StripOfPadded(pre, core, post);
    ParseOfStripped(pre + core + post, sign, body, LiteralValue(whole, fraction));
  }

  /** How `ParseDecimal` reads a text whose strip is a sign followed by an unsigned literal. */
  lemma ParseOfStripped(text: string, sign: string, body: string, m: real)
    requires IsSign(sign) && body != [] && body[0] != '-' && body[0] != '+'
    requires Strip(text) == sign + body && UnsignedValue(body) == Some(m)
    ensures ParseDecimal(text) == Some(Signed(sign, m))
  {
    var t := Strip(text);
    if sign == "" {
      assert t == body;
    } else {
      assert t[0] == sign[0] && t[1..] == body;
    }
  }

  /** A plain unsigned integer, padded or not, is read as the integer it denotes. */
  lemma ParseUnsignedInteger(pre: string, digits: string, post: string)
    requires AllSpaces(pre) && AllSpaces(post) && AllDigits(digits) && |digits| >= 1
    ensures ParseDecimal(pre + digits + post) == Some(NumberValue(digits) as real)
  {
    var e: string := [];
    assert LiteralText(digits, false, e) == digits;
    assert pre + e == pre;
    assert LiteralValue(digits, e) == NumberValue(digits) as real by {
      assert FractionValue(e) == 0.0;
    }
    ParseDecimalAccepts(pre, e, digits, false, e, post);
    assert Signed(e, LiteralValue(digits, e)) == NumberValue(digits) as real;
  }

  /** A text splits around its strip into leading and trailing whitespace. */
  lemma StripSplit(text: string) returns (pre: string, post: string)
    ensures AllSpaces(pre) && AllSpaces(post) && text == pre + Strip(text) + post
  {
    var k := LeadingSpaces(text);
    var u := text[k..];
    var j := TrailingSpaces(u);
    pre := LeadingRun(text);
    post := TrailingRun(u);
    assert Strip(text) == u[..|u| - j];
    ConcatAssoc3(pre, u[..|u| - j], post);
  }

  /** The leading whitespace of a text, with the rest of the text after it. */
  lemma LeadingRun(text: string) returns (pre: string)
    ensures AllSpaces(pre) && text == pre + text[LeadingSpaces(text)..]
  {
    var k := LeadingSpaces(text);
    pre := text[..k];
    forall i | 0 <= i < |pre| ensures IsSpace(pre[i]) {
      assert pre[i] == text[i];
    }
  }

  /** The trailing whitespace of a text, with the rest of the text before it. */
  lemma TrailingRun(u: string) returns (post: string)
    ensures AllSpaces(post) && u == u[..|u| - TrailingSpaces(u)] + post
  {
    var j := TrailingSpaces(u);
    post := u[|u| - j..];
    forall i | 0 <= i < |post| ensures IsSpace(post[i]) {
      assert post[i] == u[|u| - j + i];
    }
  }

  lemma ConcatAssoc3(a: string, b: string, c: string)
    ensures a + (b + c) == a + b + c
  {
  }

  /**
   * Conversely, every text `ParseDecimal` accepts has that form, and its value
   * is the signed value of the literal.
   */
  lemma ParseDecimalShape(text: string)
      returns (pre: string, sign: string, whole: string, point: bool, fraction: string, post: string)
    requires ParseDecimal(text).Some?
    ensures AllSpaces(pre) && AllSpaces(post) && IsSign(sign) && PlainLiteral(whole, point, fraction)
    ensures text == pre + sign + LiteralText(whole, point, fraction) + post
    ensures ParseDecimal(text).value == Signed(sign, LiteralValue(whole, fraction))
  {
    var t := Strip(text);
    pre, post := StripSplit(text);
    var body;
    if t[0] == '-' || t[0] == '+' {
      sign, body := [t[0]], t[1..];
    } else {
      sign, body := [], t;
    }
    assert t == sign + body;
    var m := UnsignedValue(body).value;
    whole, point, fraction := UnsignedShape(body);
    LiteralTextEnds(whole, point, fraction);
    ParseOfStripped(text, sign, body, m);
    ConcatAssoc(pre, sign, body, post);
  }

  lemma ConcatAssoc(a: string, b: string, c: string, d: string)
    ensures a + (b + c) + d == a + b + c + d
  {
  }

  /** An unsigned text `UnsignedValue` accepts is a plain literal, read as its value. */
  lemma UnsignedShape(body: string) returns (whole: string, point: bool, fraction: string)
    requires UnsignedValue(body).Some?
    ensures PlainLiteral(whole, point, fraction) && body == LiteralText(whole, point, fraction)
    ensures UnsignedValue(body).value == LiteralValue(whole, fraction)
  {
    var k := DotIndex(body);
    whole := body[..k];
    point := k < |body|;
    if point {
      fraction := body[k + 1..];
      assert body == whole + "." + fraction;
    } else {
      fraction := [];
      assert body == whole;
    }
  }

  /** A stripped text that does not start with a sign, a digit or a point is refused. */
  lemma NoLiteralStartRejected(text: string)
    requires Strip(text) != [] && !IsDigit(Strip(text)[0])
    requires Strip(text)[0] != '-' && Strip(text)[0] != '+' && Strip(text)[0] != '.'
    ensures ParseDecimal(text).None?
  {
    var t := Strip(text);
    var k := DotIndex(t);
    if k > 0 {
      assert t[..k][0] == t[0];
    }
  }

  /** A point with no digit on either side is refused. */
  lemma LonePointRejected(text: string)
    requires Strip(text) == "."
    ensures ParseDecimal(text).None?
  {
    assert DotIndex(".") == 0;
  }

  /** A literal whose first point is followed by a second one is refused. */
  lemma TwoPointsRejected(text: string, w: string, f: string, rest: string)
    requires AllDigits(w) && w != [] && Strip(text) == w + "." + f + "." + rest
    ensures ParseDecimal(text).None?
  {
    var t := Strip(text);
    assert t[0] == w[0];
    assert t == w + "." + (f + "." + rest);
    DotIndexOfDigits(w, f + "." + rest);
    assert t[|w| + 1..] == f + "." + rest;
    assert (f + "." + rest)[|f|] == '.';
  }

  /** A sign followed by another sign is refused. */
  lemma DoubledSignRejected(text: string, rest: string)
    requires Strip(text) == "-" + "-" + rest
    ensures ParseDecimal(text).None?
  {
    var t := Strip(text);
    var b := t[1..];
    assert b == "-" + rest;
    var k := DotIndex(b);
    assert k > 0;
    assert b[..k][0] == '-';
  }

  lemma WordRejected()
    ensures ParseDecimal("abc").None?
  {
    StripOfStripped("abc");
    NoLiteralStartRejected("abc");
  }

  lemma LonePointExample()
    ensures ParseDecimal(".").None?
  {
    StripOfStripped(".");
    LonePointRejected(".");
  }

  lemma TwoPointsExample()
    ensures ParseDecimal("1.2.3").None?
  {
    StripOfStripped("1.2.3");
    assert "1.2.3" == "1" + "." + "2" + "." + "3";
    TwoPointsRejected("1.2.3", "1", "2", "3");
  }

  lemma DoubledSignExample()
    ensures ParseDecimal("--5").None?
  {
    StripOfStripped("--5");
    assert "--5" == "-" + "-" + "5";
    DoubledSignRejected("--5", "5");
  }

  /** A word, a lone point, two points and a doubled sign are all refused. */
  lemma ParseDecimalRejects()
    ensures ParseDecimal("abc").None?
    ensures ParseDecimal(".").None?
    ensures ParseDecimal("1.2.3").None?
    ensures ParseDecimal("--5").None?
  {
    WordRejected();
    LonePointExample();
    TwoPointsExample();
    DoubledSignExample();
  }

  // ---------------------------------------------------------------------
  // ASCII case folding
  // ---------------------------------------------------------------------

  /** SQLite's `lower()`: folds only the ASCII letters A-Z. */
  function LowerAscii(c: char): char {
    if 'A' <= c <= 'Z' then (c as int + 32) as char else c
  }

  function FoldCase(s: string): (r: string)
    ensures |r| == |s|
    ensures forall i :: 0 <= i < |s| ==> r[i] == LowerAscii(s[i])
  {
    seq(|s|, i requires 0 <= i < |s| => LowerAscii(s[i]))
  }

  /** Case-insensitive equality as `lower(a) LIKE lower(b)` decides it for a pattern without wildcards. */
  predicate EqualsIgnoreCase(a: string, b: string) {
    FoldCase(a) == FoldCase(b)
  }

  predicate IsUpperAscii(c: char) {
    'A' <= c <= 'Z'
  }

  /** `x` and `y` are the capital and the small form of one letter of the English alphabet. */
  predicate CaseVariants(x: char, y: char) {
    (IsUpperAscii(x) && y as int == x as int + ('a' as int - 'A' as int))
    || (IsUpperAscii(y) && x as int == y as int + ('a' as int - 'A' as int))
  }

  /** Two characters fold alike exactly when they are equal or are one ASCII letter in its two cases. */
  lemma LowerAsciiAlike(x: char, y: char)
    ensures LowerAscii(x) == LowerAscii(y) <==> x == y || CaseVariants(x, y)
  {
  }

  /**
   * The case-insensitive comparison, character by character: the texts have
   * the same length and each pair of characters is equal or is one ASCII
   * letter in its capital and small form. No other character is folded.
   */
  lemma EqualsIgnoreCaseExact(a: string, b: string)
    ensures EqualsIgnoreCase(a, b)
            <==> |a| == |b| && forall i :: 0 <= i < |a| ==> a[i] == b[i] || CaseVariants(a[i], b[i])
  {
    var fa, fb := FoldCase(a), FoldCase(b);
    if fa == fb {
      forall i | 0 <= i < |a| ensures a[i] == b[i] || CaseVariants(a[i], b[i]) {
        assert fa[i] == fb[i];
        LowerAsciiAlike(a[i], b[i]);
      }
    }
    if |a| == |b| && forall i :: 0 <= i < |a| ==> a[i] == b[i] || CaseVariants(a[i], b[i]) {
      forall i | 0 <= i < |a| ensures fa[i] == fb[i] {
        LowerAsciiAlike(a[i], b[i]);
      }
      assert fa == fb;
    }
  }

  /** "Food" and "FOOD" compare equal; the non-ASCII "É" and "é" do not, since `lower()` folds only A-Z. */
  lemma EqualsIgnoreCaseExamples()
    ensures EqualsIgnoreCase("Food", "FOOD")
    ensures !EqualsIgnoreCase("\U{C9}", "\U{E9}")
  {
    var a, b := "Food", "FOOD";
    assert CaseVariants(a[1], b[1]) && CaseVariants(a[2], b[2]) && CaseVariants(a[3], b[3]);
    EqualsIgnoreCaseExact(a, b);
    var c, d := "\U{C9}", "\U{E9}";
    assert c[0] != d[0] && !IsUpperAscii(c[0]) && !IsUpperAscii(d[0]);
    EqualsIgnoreCaseExact(c, d);
  }
}
