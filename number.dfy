/** JavaScript's `Number(text)`: the string numeric grammar of ECMAScript's
    `StringToNumber` (section 7.1.4.1.1 of ECMA-262), read with exact values.
    White space at either end is trimmed, an empty text is 0, and then the
    text must be a whole literal: `0x`/`0o`/`0b` digits, or a signed decimal
    with an optional point and exponent, or a signed `Infinity`. */
module JsNumbers {
  import opened Common
  import opened Text

  /** What `Number(text)` yields: a finite value, an infinity of either sign,
      or NaN. */
  datatype JsNum = Finite(value: real) | Infinite | NaN

  /** `s` without its trailing white space. */
  function TrimEnd(s: string): (r: string)
    ensures |r| <= |s|
    decreases |s|
  {
    if s != [] && IsJsSpace(s[|s| - 1]) then TrimEnd(s[..|s| - 1]) else s
  }

  /** `s` without white space at either end. */
  function Trim(s: string): string
  {
    TrimEnd(TrimStart(s))
  }

  function Pow10(e: nat): (p: nat)
    ensures p >= 1
  {
    if e == 0 then 1 else 10 * Pow10(e - 1)
  }

  /** `x * 10^e` for an exponent of either sign, one factor of ten at a time. */
  function ScaleBy(x: real, e: int): (r: real)
    ensures x >= 0.0 ==> r >= 0.0
    decreases if e >= 0 then e else -e
  {
    if e == 0 then x
    else if e > 0 then 10.0 * ScaleBy(x, e - 1)
    else ScaleBy(x, e + 1) / 10.0
  }

  /** The length of the run of decimal digits at the start of `s`. */
  function DigitRun(s: string): (n: nat)
    ensures n <= |s|
  {
    if s != [] && IsDigit(s[0]) then 1 + DigitRun(s[1..]) else 0
  }

  /** The value of a text read as decimal digits, a non-digit counting as 0;
      on digits it is `DigitsValue`. */
  function DigitsNat(s: string): nat
  {
    if s == [] then 0
    else DigitsNat(s[..|s| - 1]) * 10 + (if IsDigit(s[|s| - 1]) then DigitValue(s[|s| - 1]) else 0)
  }

  /** The exponent part: nothing (0), or `e`/`E`, an optional sign and at
      least one digit; anything else is no exponent (`None`). */
  function ExponentPart(s: string): (r: Option<int>)
    ensures s == [] ==> r == Some(0)
  {
    if s == [] then Some(0)
    else if s[0] != 'e' && s[0] != 'E' then None
    else
      var t := s[1..];
      var signed := t != [] && (t[0] == '-' || t[0] == '+');
      var ds := if signed then t[1..] else t;
      if ds == [] || DigitRun(ds) != |ds| then None
      else if signed && t[0] == '-' then Some(-(DigitsNat(ds) as int))
      else Some(DigitsNat(ds))
  }

  /** The value of a decimal's digits, `fracLen` of them after the point,
      followed by the exponent text `tail`; no digits at all is no number. */
  function DecimalValue(digits: string, fracLen: nat, tail: string): (r: Option<real>)
    ensures r.Some? ==> r.value >= 0.0
  {
    match ExponentPart(tail)
    case None => None
    case Some(e) => if digits == [] then None else Some(ScaleBy(DigitsNat(digits) as real, e - fracLen))
  }

  /** An unsigned decimal: whole digits, an optional point with fraction
      digits (at least one digit in all), then an optional exponent; its value
      is all the digits read as one integer, scaled by the exponent less the
      number of fraction digits. */
  function UnsignedDecimal(s: string): (r: Option<real>)
    ensures r.Some? ==> r.value >= 0.0
  {
    var n := DigitRun(s);
    if n < |s| && s[n] == '.' then
      var f := s[n + 1..];
      var m := DigitRun(f);
      DecimalValue(s[..n] + f[..m], m, f[m..])
    else DecimalValue(s[..n], 0, s[n..])
  }

  /** The base a `0x`, `0o` or `0b` prefix letter selects; 0 for any other
      letter. */
  function RadixOf(c: char): (b: nat)
    ensures b == 0 || b == 2 || b == 8 || b == 16
  {
    if c == 'x' || c == 'X' then 16
    else if c == 'o' || c == 'O' then 8
    else if c == 'b' || c == 'B' then 2
    else 0
  }

  /** The value of `0-9`, `a-f` or `A-F` as a digit. */
  function HexValue(c: char): (r: Option<nat>)
    ensures r.Some? ==> r.value < 16
    ensures IsDigit(c) ==> r == Some(DigitValue(c))
  {
    if IsDigit(c) then Some(DigitValue(c))
    else if 'a' <= c <= 'f' then Some(c as int - 'a' as int + 10)
    else if 'A' <= c <= 'F' then Some(c as int - 'A' as int + 10)
    else None
  }

  predicate AllRadixDigits(s: string, radix: nat)
  {
    forall i :: 0 <= i < |s| ==> HexValue(s[i]).Some? && HexValue(s[i]).value < radix
  }

  /** The value of digits in the given base. */
  function RadixValue(s: string, radix: nat): nat
    decreases |s|
  {
    if s == [] then 0
    else
      var d := HexValue(s[|s| - 1]);
      RadixValue(s[..|s| - 1], radix) * radix + (if d.Some? then d.value else 0)
  }

  /** `Number(s)`: the literal that remains once white space is trimmed. */
  function JsNumber(s: string): JsNum
  {
    NumericLiteral(Trim(s))
  }

  /** A trimmed text as a numeric literal; the empty text is 0. */
  function NumericLiteral(t: string): (r: JsNum)
  {
    if t == [] then Finite(0.0)
    else if |t| >= 2 && t[0] == '0' && RadixOf(t[1]) != 0 then
      var ds := t[2..];
      if ds != [] && AllRadixDigits(ds, RadixOf(t[1])) then Finite(RadixValue(ds, RadixOf(t[1])) as real) else NaN
    else
      var u := if t[0] == '-' || t[0] == '+' then t[1..] else t;
      if u == "Infinity" then Infinite
      else match UnsignedDecimal(u)
        case None => NaN
        case Some(v) => Finite(if t[0] == '-' then -v else v)
  }

  /** `ToIntegerOrInfinity` on a finite value: the integer part, toward zero. */
  function Trunc(x: real): (r: int)
    ensures x >= 0.0 ==> r >= 0 && r as real <= x < r as real + 1.0
    ensures x < 0.0 ==> r <= 0 && r as real - 1.0 < x <= r as real
  {
    if x >= 0.0 then x.Floor else -((-x).Floor)
  }

  /** An integral value is its own integer part. */
  lemma TruncOfInt(k: int)
    ensures Trunc(k as real) == k
  {
  }

  // ---------------------------------------------------------------------------
  // Trimming

  /** Leading white space is skipped. */
  lemma {:induction false} TrimStartSkips(w: string, x: string)
    requires forall i :: 0 <= i < |w| ==> IsJsSpace(w[i])
    ensures TrimStart(w + x) == TrimStart(x)
    decreases |w|
  {
    if w == [] {
      assert w + x == x;
    } else {
      assert (w + x)[1..] == w[1..] + x;
      TrimStartSkips(w[1..], x);
    }
  }

  /** Trailing white space is skipped. */
  lemma {:induction false} TrimEndSkips(x: string, w: string)
    requires forall i :: 0 <= i < |w| ==> IsJsSpace(w[i])
    ensures TrimEnd(x + w) == TrimEnd(x)
    decreases |w|
  {
    if w == [] {
      assert x + w == x;
    } else {
      var w' := w[..|w| - 1];
      assert (x + w)[..|x + w| - 1] == x + w';
      TrimEndSkips(x, w');
    }
  }

  /** Trailing white space survives the leading trim only to be cut by the
      trailing one. */
  lemma {:induction false} TrimThroughEnd(x: string, w: string)
    requires forall i :: 0 <= i < |w| ==> IsJsSpace(w[i])
    ensures Trim(x + w) == Trim(x)
    decreases |x|
  {
    if x == [] {
      assert x + w == w + [];
      TrimStartSkips(w, []);
    } else if IsJsSpace(x[0]) {
      assert (x + w)[1..] == x[1..] + w;
      TrimThroughEnd(x[1..], w);
    } else {
      TrimEndSkips(x, w);
    }
  }

  /** `Number` ignores white space around the text. */
  lemma SpaceAroundIgnored(w1: string, s: string, w2: string)
    requires forall i :: 0 <= i < |w1| ==> IsJsSpace(w1[i])
    requires forall i :: 0 <= i < |w2| ==> IsJsSpace(w2[i])
    ensures JsNumber(w1 + s + w2) == JsNumber(s)
  {
    assert w1 + s + w2 == w1 + (s + w2);
    TrimStartSkips(w1, s + w2);
    TrimThroughEnd(s, w2);
  }

  /** A text of white space only, the empty text included, reads as 0. */
  lemma BlankIsZero(w: string)
    requires forall i :: 0 <= i < |w| ==> IsJsSpace(w[i])
    ensures JsNumber(w) == Finite(0.0)
  {
    assert w + [] == w;
    TrimStartSkips(w, []);
  }

  /** A text that starts and ends with no white space is its own trim. */
  lemma TrimNoSpace(s: string)
    requires s != [] && !IsJsSpace(s[0]) && !IsJsSpace(s[|s| - 1])
    ensures Trim(s) == s
  {
    TrimStartNoSpace(s);
  }

  // ---------------------------------------------------------------------------
  // What the grammar reads

  /** The digit run of digits followed by a non-digit is those digits. */
  lemma {:induction false} DigitRunOf(d: string, rest: string)
    requires AllDigits(d)
    requires rest == [] || !IsDigit(rest[0])
    ensures DigitRun(d + rest) == |d|
    decreases |d|
  {
    if d == [] {
      assert d + rest == rest;
    } else {
      assert (d + rest)[0] == d[0];
      assert (d + rest)[1..] == d[1..] + rest;
      DigitRunOf(d[1..], rest);
    }
  }

  lemma DigitRunAll(d: string)
    requires AllDigits(d)
    ensures DigitRun(d) == |d|
  {
    DigitRunOf(d, []);
    assert d + [] == d;
  }

  lemma {:induction false} DigitsNatValue(d: string)
    requires AllDigits(d)
    ensures DigitsNat(d) == DigitsValue(d)
    decreases |d|
  {
    if d != [] {
      DigitsNatValue(d[..|d| - 1]);
    }
  }

  /** A digit or a point is neither white space nor a radix letter. */
  lemma DigitNoRadix(c: char)
    requires IsDigit(c) || c == '.'
    ensures RadixOf(c) == 0 && !IsJsSpace(c)
  {
  }

  /** A literal that starts with a digit or a point and has no radix prefix
      is the unsigned decimal it spells. */
  lemma UnsignedLiteral(t: string, v: real)
    requires t != [] && (IsDigit(t[0]) || t[0] == '.')
    requires |t| >= 2 && t[0] == '0' ==> RadixOf(t[1]) == 0
    requires UnsignedDecimal(t) == Some(v)
    ensures NumericLiteral(t) == Finite(v)
  {
    assert t != "Infinity" by {
      assert t[0] != "Infinity"[0];
    }
  }

  /** A signed literal is the unsigned decimal after the sign, negated for
      `-`. */
  lemma SignedLiteral(sign: char, u: string, v: real)
    requires sign == '-' || sign == '+'
    requires u != [] && IsDigit(u[0])
    requires UnsignedDecimal(u) == Some(v)
    ensures NumericLiteral([sign] + u) == Finite(if sign == '-' then -v else v)
  {
    var t := [sign] + u;
    assert t[1..] == u;
    assert u != "Infinity" by {
      assert u[0] != "Infinity"[0];
    }
  }

  /** The text is split after its first `|d|` characters. */
  lemma SplitAfter(d: string, rest: string)
    ensures (d + rest)[..|d|] == d && (d + rest)[|d|..] == rest
  {
  }

  /** An unsigned decimal with no point, from its parts. */
  lemma WholeDecimalParts(s: string, n: nat, e: int, v: nat)
    requires 1 <= n && DigitRun(s) == n
    requires n == |s| || s[n] != '.'
    requires ExponentPart(s[n..]) == Some(e)
    requires DigitsNat(s[..n]) == v
    ensures UnsignedDecimal(s) == Some(ScaleBy(v as real, e))
  {
  }

  /** An unsigned decimal with a point, from its parts. */
  lemma PointDecimalParts(s: string, n: nat, m: nat, e: int, v: nat)
    requires DigitRun(s) == n && n < |s| && s[n] == '.'
    requires DigitRun(s[n + 1..]) == m && 1 <= n + m
    requires ExponentPart(s[n + 1..][m..]) == Some(e)
    requires DigitsNat(s[..n] + s[n + 1..][..m]) == v
    ensures UnsignedDecimal(s) == Some(ScaleBy(v as real, e - m))
  {
    assert |s[..n] + s[n + 1..][..m]| == n + m;
  }

  /** Digits alone are an unsigned decimal of their own value. */
  lemma DigitsDecimal(d: string)
    requires d != [] && AllDigits(d)
    ensures UnsignedDecimal(d) == Some(DigitsValue(d) as real)
  {
    DigitRunAll(d);
    DigitsNatValue(d);
    assert d[..|d|] == d;
    assert d[|d|..] == [];
    WholeDecimalParts(d, |d|, 0, DigitsValue(d));
  }

  /** Digits, a point and digits are an unsigned decimal of all the digits
      scaled down by the fraction's length. */
  lemma PointDecimal(d: string, f: string)
    requires AllDigits(d) && AllDigits(f) && (d != [] || f != [])
    ensures UnsignedDecimal(d + ("." + f)) == Some(ScaleBy(DigitsValue(d + f) as real, -|f|))
  {
    var t := d + ("." + f);
    FractionParts(d, f);
    PointDecimalParts(t, |d|, |f|, 0, DigitsNat(d + f));
    DigitsConcat(d, f);
  }

  /** The pieces `UnsignedDecimal` cuts from digits, a point and digits. */
  lemma FractionParts(d: string, f: string)
    requires AllDigits(d) && AllDigits(f)
    ensures var t := d + ("." + f);
      && DigitRun(t) == |d| && |d| < |t| && t[|d|] == '.'
      && DigitRun(t[|d| + 1..]) == |f| && ExponentPart(t[|d| + 1..][|f|..]) == Some(0)
      && t[..|d|] + t[|d| + 1..][..|f|] == d + f
  {
    var t := d + ("." + f);
    SplitAfter(d, "." + f);
    DigitRunOf(d, "." + f);
    assert t[|d| + 1..] == f;
    DigitRunAll(f);
    assert f[|f|..] == [] && f[..|f|] == f;
  }

  lemma DigitsConcat(d: string, f: string)
    requires AllDigits(d) && AllDigits(f)
    ensures AllDigits(d + f) && DigitsNat(d + f) == DigitsValue(d + f)
  {
    assert AllDigits(d + f);
    DigitsNatValue(d + f);
  }

  /** `e` and digits is an exponent of their value. */
  lemma ExponentDigits(e: string)
    requires e != [] && AllDigits(e)
    ensures ExponentPart("e" + e) == Some(DigitsValue(e) as int)
  {
    assert ("e" + e)[1..] == e;
    assert IsDigit(e[0]);
    DigitRunAll(e);
    DigitsNatValue(e);
  }

  /** Digits, `e` and digits are an unsigned decimal scaled up by the
      exponent. */
  lemma ExponentDecimal(d: string, e: string)
    requires d != [] && AllDigits(d) && e != [] && AllDigits(e)
    ensures UnsignedDecimal(d + ("e" + e)) == Some(ScaleBy(DigitsValue(d) as real, DigitsValue(e)))
  {
    var t := d + ("e" + e);
    SplitAfter(d, "e" + e);
    DigitRunOf(d, "e" + e);
    ExponentDigits(e);
    DigitsNatValue(d);
    WholeDecimalParts(t, |d|, DigitsValue(e), DigitsValue(d));
  }

  /** A literal with no white space at either end is read as it stands. */
  lemma LiteralRead(t: string, r: JsNum)
    requires t != [] && !IsJsSpace(t[0]) && !IsJsSpace(t[|t| - 1])
    requires NumericLiteral(t) == r
    ensures JsNumber(t) == r
  {
    TrimNoSpace(t);
  }

  /** Decimal digits read as their value. */
  lemma DigitsRead(d: string)
    requires d != [] && AllDigits(d)
    ensures JsNumber(d) == Finite(DigitsValue(d) as real)
  {
    var v := DigitsValue(d) as real;
    DigitsDecimal(d);
    DigitNoRadix(d[0]);
    DigitNoRadix(d[|d| - 1]);
    if |d| >= 2 {
      DigitNoRadix(d[1]);
    }
    UnsignedLiteral(d, v);
    LiteralRead(d, Finite(v));
  }

  /** A sign before decimal digits gives their value or its negation. */
  lemma SignedDigitsRead(d: string, sign: char)
    requires d != [] && AllDigits(d)
    requires sign == '-' || sign == '+'
    ensures JsNumber([sign] + d) == Finite(if sign == '-' then -(DigitsValue(d) as real) else DigitsValue(d) as real)
  {
    var v := DigitsValue(d) as real;
    DigitsDecimal(d);
    assert IsDigit(d[0]);
    SignedLiteral(sign, d, v);
    DigitNoRadix(d[|d| - 1]);
    LastOfCons(sign, d);
    LiteralRead([sign] + d, Finite(if sign == '-' then -v else v));
  }

  lemma LastOfCons(c: char, s: string)
    requires s != []
    ensures ([c] + s)[0] == c && ([c] + s)[|s|] == s[|s| - 1]
  {
  }

  /** Digits, a point and fraction digits read as all the digits scaled down
      by the number of fraction digits: the exact decimal value. */
  lemma DecimalRead(d: string, f: string)
    requires AllDigits(d) && AllDigits(f) && (d != [] || f != [])
    ensures JsNumber(d + ("." + f)) == Finite(ScaleBy(DigitsValue(d + f) as real, -|f|))
  {
    var t := d + ("." + f);
    var v := ScaleBy(DigitsValue(d + f) as real, -|f|);
    PointDecimal(d, f);
    PointText(d, f);
    if d != [] {
      DigitNoRadix(d[0]);
    }
    if |t| >= 2 {
      DigitNoRadix(t[1]);
    }
    if f != [] {
      DigitNoRadix(f[|f| - 1]);
    }
    DigitNoRadix(t[|t| - 1]);
    UnsignedLiteral(t, v);
    LiteralRead(t, Finite(v));
  }

  /** The characters at the ends of `d + ("." + f)`. */
  lemma PointText(d: string, f: string)
    requires AllDigits(d) && AllDigits(f)
    ensures var t := d + ("." + f);
      && (d != [] ==> t[0] == d[0]) && (d == [] ==> t[0] == '.')
      && (|t| >= 2 ==> IsDigit(t[1]) || t[1] == '.')
      && (f != [] ==> t[|t| - 1] == f[|f| - 1]) && (f == [] ==> t[|t| - 1] == '.')
  {
    var t := d + ("." + f);
    assert t[|d|] == '.';
    if |t| >= 2 && |d| >= 2 {
      assert t[1] == d[1];
    } else if |t| >= 2 && |d| == 0 {
      assert t[1] == f[0];
    }
  }

  /** Scaling commutes with a factor of ten. */
  lemma {:induction false} ScaleByTen(x: real, e: int)
    ensures ScaleBy(10.0 * x, e) == 10.0 * ScaleBy(x, e)
    decreases if e >= 0 then e else -e
  {
    if e > 0 {
      ScaleByTen(x, e - 1);
    } else if e < 0 {
      ScaleByTen(x, e + 1);
    }
  }

  /** Trailing zeros after the point are undone by the scaling. */
  lemma {:induction false} TrailingZerosScale(d: string, z: string)
    requires AllDigits(d) && AllChar(z, '0')
    ensures AllDigits(d + z) && ScaleBy(DigitsValue(d + z) as real, -|z|) == DigitsValue(d) as real
    decreases |z|
  {
    assert AllDigits(d + z);
    if z == [] {
      assert d + z == d;
    } else {
      var z' := z[..|z| - 1];
      assert (d + z)[..|d + z| - 1] == d + z';
      TrailingZerosScale(d, z');
      var v := DigitsValue(d + z') as real;
      assert DigitsValue(d + z) as real == 10.0 * v;
      ScaleByTen(v, -|z'|);
    }
  }

  /** A point followed only by zeros reads as the whole number. */
  lemma ZeroFractionRead(d: string, z: string)
    requires d != [] && AllDigits(d) && AllChar(z, '0')
    ensures JsNumber(d + ("." + z)) == Finite(DigitsValue(d) as real)
  {
    DecimalRead(d, z);
    TrailingZerosScale(d, z);
  }

  /** Digits with an exponent of digits read as the value times that power of
      ten. */
  lemma ExponentRead(d: string, e: string)
    requires d != [] && AllDigits(d) && e != [] && AllDigits(e)
    ensures JsNumber(d + ("e" + e)) == Finite(ScaleBy(DigitsValue(d) as real, DigitsValue(e)))
  {
    var t := d + ("e" + e);
    var v := ScaleBy(DigitsValue(d) as real, DigitsValue(e));
    ExponentDecimal(d, e);
    ExponentText(d, e);
    DigitNoRadix(d[0]);
    DigitNoRadix(e[|e| - 1]);
    UnsignedLiteral(t, v);
    LiteralRead(t, Finite(v));
  }

  /** The characters at the ends of `d + ("e" + e)`. */
  lemma ExponentText(d: string, e: string)
    requires d != [] && AllDigits(d) && e != []
    ensures var t := d + ("e" + e);
      && t[0] == d[0] && (|t| >= 2 && t[0] == '0' ==> RadixOf(t[1]) == 0)
      && t[|t| - 1] == e[|e| - 1]
  {
    var t := d + ("e" + e);
    if |d| >= 2 {
      assert t[1] == d[1];
    } else {
      assert t[1] == 'e';
    }
  }

  /** A non-negative exponent multiplies by that power of ten. */
  lemma {:induction false} ScaleByPow10(x: real, k: nat)
    ensures ScaleBy(x, k) == x * Pow10(k) as real
  {
    if k > 0 {
      ScaleByPow10(x, k - 1);
    }
  }

  /** Scaling a natural number up gives a natural number. */
  lemma ScaleNat(n: nat, k: nat)
    ensures ScaleBy(n as real, k) == (n * Pow10(k)) as real
  {
    ScaleByPow10(n as real, k);
    assert (n * Pow10(k)) as real == n as real * Pow10(k) as real;
  }

  /** `0x`, `0o` or `0b` followed by digits of that base reads as their value. */
  lemma RadixRead(p: char, h: string)
    requires RadixOf(p) != 0 && h != [] && AllRadixDigits(h, RadixOf(p))
    ensures JsNumber(['0', p] + h) == Finite(RadixValue(h, RadixOf(p)) as real)
  {
    var t := ['0', p] + h;
    assert HexValue(h[|h| - 1]).Some?;
    assert t[|t| - 1] == h[|h| - 1];
    TrimNoSpace(t);
    assert t[2..] == h;
  }

  /** A text that does not start like a number, after trimming, is NaN. */
  lemma NotNumeric(s: string)
    requires s != [] && !IsJsSpace(s[0]) && !IsJsSpace(s[|s| - 1])
    requires !IsDigit(s[0]) && s[0] != '.' && s[0] != '+' && s[0] != '-' && s[0] != 'I'
    ensures JsNumber(s) == NaN
  {
    TrimNoSpace(s);
  }
}
