/** The JavaScript string operations the core relies on: decimal rendering of
    integers (`String(n)`, template literals), `padStart`, `parseInt`, `split`
    on one separator character, `join`, `includes` and `length`. */
module Text {
  import opened Common

  predicate IsDigit(c: char) { '0' <= c <= '9' }

  predicate AllDigits(s: string) { forall i :: 0 <= i < |s| ==> IsDigit(s[i]) }

  function DigitChar(d: nat): (c: char)
    requires d < 10
    ensures IsDigit(c)
  {
    ('0' as int + d) as char
  }

  function DigitValue(c: char): (d: nat)
    requires IsDigit(c)
    ensures d < 10 && DigitChar(d) == c
  {
    c as int - '0' as int
  }

  /** Decimal text of a natural number, no leading zeros. */
  function NatToString(n: nat): (s: string)
    ensures 1 <= |s| && AllDigits(s)
    ensures n < 10 ==> |s| == 1
    ensures 10 <= n < 100 ==> |s| == 2
    decreases n
  {
    if n < 10 then [DigitChar(n)] else NatToString(n / 10) + [DigitChar(n % 10)]
  }

  /** `String(i)` for an integer value. */
  function IntToString(i: int): string
  {
    if i < 0 then "-" + NatToString(-i) else NatToString(i)
  }

  /** The value of a string of decimal digits ("" reads as 0). */
  function DigitsValue(s: string): nat
    requires AllDigits(s)
    decreases |s|
  {
    if s == [] then 0 else DigitsValue(s[..|s| - 1]) * 10 + DigitValue(s[|s| - 1])
  }

  /** Reading back the decimal text of `n` gives `n`. */
  lemma {:induction false} DigitsValueOfNatToString(n: nat)
    ensures DigitsValue(NatToString(n)) == n
    decreases n
  {
    if n >= 10 {
      var s := NatToString(n);
      assert s[..|s| - 1] == NatToString(n / 10);
      DigitsValueOfNatToString(n / 10);
    }
  }

  predicate AllChar(s: string, c: char) { forall i :: 0 <= i < |s| ==> s[i] == c }

  /** Leading zeros do not change the value of a digit string. */
  lemma {:induction false} DigitsValueLeadingZeros(z: string, s: string)
    requires AllChar(z, '0') && AllDigits(s)
    ensures AllDigits(z + s) && DigitsValue(z + s) == DigitsValue(s)
    decreases |s|, |z|
  {
    assert AllDigits(z + s);
    if s == [] {
      assert z + s == z;
      if z != [] {
        DigitsValueLeadingZeros(z[..|z| - 1], []);
        assert z[..|z| - 1] + [] == z[..|z| - 1];
      }
    } else {
      var s' := s[..|s| - 1];
      assert (z + s)[..|z + s| - 1] == z + s';
      DigitsValueLeadingZeros(z, s');
    }
  }

  /** `s.padStart(width, pad)`. */
  function PadStart(s: string, width: nat, pad: char): (r: string)
    ensures |r| == if |s| >= width then |s| else width
    ensures r[|r| - |s|..] == s
    ensures AllChar(r[..|r| - |s|], pad)
  {
    if |s| >= width then s else seq(width - |s|, _ => pad) + s
  }

  /** The white space and line terminators that `parseInt` and `Number` trim:
      tab, line feed, vertical tab, form feed, carriage return, space,
      no-break space, the space separators of Unicode, the line and
      paragraph separators, and the byte order mark. */
  predicate IsJsSpace(c: char)
  {
    ('\t' <= c <= '\r') || c == ' ' || c == '\U{00A0}' || c == '\U{1680}'
    || ('\U{2000}' <= c <= '\U{200A}') || c == '\U{2028}' || c == '\U{2029}'
    || c == '\U{202F}' || c == '\U{205F}' || c == '\U{3000}' || c == '\U{FEFF}'
  }

  /** `s` without its leading white space. */
  function TrimStart(s: string): (r: string)
    ensures |r| <= |s| && r == s[|s| - |r|..]
    ensures r == [] || !IsJsSpace(r[0])
    ensures forall i :: 0 <= i < |s| - |r| ==> IsJsSpace(s[i])
    decreases |s|
  {
    if s != [] && IsJsSpace(s[0]) then TrimStart(s[1..]) else s
  }

  /** The longest prefix of `s` made of decimal digits. */
  function LeadingDigits(s: string): (r: string)
    ensures AllDigits(r) && |r| <= |s| && r == s[..|r|]
    ensures |r| == |s| || !IsDigit(s[|r|])
    decreases |s|
  {
    if s != [] && IsDigit(s[0]) then [s[0]] + LeadingDigits(s[1..]) else []
  }

  /** `parseInt(s, 10)`: skip white space, take an optional sign and then the
      leading decimal digits; no digits at all is NaN (`None`). */
  function JsParseInt(s: string): (r: Option<int>)
  {
    var t := TrimStart(s);
    var signed := |t| > 0 && (t[0] == '-' || t[0] == '+');
    var ds := LeadingDigits(if signed then t[1..] else t);
    if ds == [] then None
    else if signed && t[0] == '-' then Some(-(DigitsValue(ds) as int))
    else Some(DigitsValue(ds))
  }

  /** `parseInt` reads back the decimal text of a number, whatever non-digit
      text follows it. */
  lemma JsParseIntOfNat(n: nat, rest: string)
    requires rest == [] || !IsDigit(rest[0])
    ensures JsParseInt(NatToString(n) + rest) == Some(n)
  {
    JsParseIntOfDigits(NatToString(n), rest);
    DigitsValueOfNatToString(n);
  }

  /** A leading minus sign reads as negation. */
  lemma JsParseIntOfNegative(n: nat, rest: string)
    requires rest == [] || !IsDigit(rest[0])
    ensures JsParseInt("-" + NatToString(n) + rest) == Some(-(n as int))
  {
    var d := NatToString(n);
    assert "-" + d + rest == ['-'] + (d + rest);
    DigitsValueOfNatToString(n);
    JsParseIntOfSignedDigits(d, rest, n);
  }

  lemma JsParseIntOfDigits(d: string, rest: string)
    requires d != [] && AllDigits(d)
    requires rest == [] || !IsDigit(rest[0])
    ensures JsParseInt(d + rest) == Some(DigitsValue(d))
  {
    var s := d + rest;
    assert s[0] == d[0];
    TrimStartNoSpace(s);
    LeadingDigitsOf(d, rest);
  }

  lemma JsParseIntOfSignedDigits(d: string, rest: string, v: int)
    requires d != [] && AllDigits(d) && v == DigitsValue(d)
    requires rest == [] || !IsDigit(rest[0])
    ensures JsParseInt(['-'] + (d + rest)) == Some(-v)
  {
    var s := ['-'] + (d + rest);
    TrimStartNoSpace(s);
    TailOfCons('-', d + rest);
    LeadingDigitsOf(d, rest);
  }

  /** A string that does not start with white space is its own trimmed form. */
  lemma TrimStartNoSpace(s: string)
    requires s != [] && !IsJsSpace(s[0])
    ensures TrimStart(s) == s
  {
  }

  lemma {:induction false} LeadingDigitsOf(d: string, rest: string)
    requires AllDigits(d)
    requires rest == [] || !IsDigit(rest[0])
    ensures LeadingDigits(d + rest) == d
    decreases |d|
  {
    if d == [] {
      assert d + rest == rest;
    } else {
      assert (d + rest)[1..] == d[1..] + rest;
      LeadingDigitsOf(d[1..], rest);
    }
  }

  /** A string with no digit after its white space and sign reads as NaN. */
  lemma JsParseIntNaN(s: string)
    requires forall i :: 0 <= i < |s| ==> !IsDigit(s[i])
    ensures JsParseInt(s) == None
  {
    var t := TrimStart(s);
    if t != [] {
      assert t[0] == s[|s| - |t|];
      if |t| > 1 {
        assert t[1] == s[|s| - |t| + 1];
      }
    }
  }

  /** Index of the first occurrence of `c` in `s`. */
  function IndexOf(s: string, c: char): (i: nat)
    requires c in s
    ensures i < |s| && s[i] == c && c !in s[..i]
  {
    if s[0] == c then 0 else 1 + IndexOf(s[1..], c)
  }

  /** `s.split(sep)` for a one-character separator. */
  function Split(s: string, sep: char): (parts: seq<string>)
    ensures |parts| >= 1
    ensures forall k :: 0 <= k < |parts| ==> sep !in parts[k]
    decreases |s|
  {
    if sep !in s then [s]
    else
      var i := IndexOf(s, sep);
      [s[..i]] + Split(s[i + 1..], sep)
  }

  /** Splitting `a + [sep] + b` where `a` has no separator peels off `a`. */
  lemma SplitCons(a: string, sep: char, b: string)
    requires sep !in a
    ensures Split(a + [sep] + b, sep) == [a] + Split(b, sep)
  {
    var s := a + [sep] + b;
    assert s[|a|] == sep;
    var i := IndexOf(s, sep);
    assert i == |a|;
    assert s[..i] == a && s[i + 1..] == b;
  }

  /** `parts.join(sep)`. */
  function Join(parts: seq<string>, sep: string): string
    decreases |parts|
  {
    if parts == [] then ""
    else if |parts| == 1 then parts[0]
    else parts[0] + sep + Join(parts[1..], sep)
  }

  /** `s.includes(sub)`, written as a scan. */
  function Includes(s: string, sub: string): bool
    decreases |s|
  {
    if |sub| <= |s| && s[..|sub|] == sub then true
    else if s == [] then false
    else Includes(s[1..], sub)
  }

  /** `sub` occurs in `s` at some offset. */
  ghost predicate OccursIn(sub: string, s: string)
  {
    exists i :: OccursAt(sub, s, i)
  }

  predicate OccursAt(sub: string, s: string, i: int)
  {
    0 <= i && i + |sub| <= |s| && s[i..i + |sub|] == sub
  }

  /** The scan finds `sub` exactly when it occurs somewhere in `s`. */
  lemma {:induction false} IncludesIffOccurs(s: string, sub: string)
    ensures Includes(s, sub) <==> OccursIn(sub, s)
    decreases |s|
  {
    if |sub| <= |s| && s[..|sub|] == sub {
      assert OccursAt(sub, s, 0);
    } else if s == [] {
    } else {
      IncludesIffOccurs(s[1..], sub);
      if OccursIn(sub, s) {
        var i :| OccursAt(sub, s, i);
        assert i != 0;
        assert s[1..][i - 1..i - 1 + |sub|] == sub;
        assert OccursAt(sub, s[1..], i - 1);
      }
      if OccursIn(sub, s[1..]) {
        var i :| OccursAt(sub, s[1..], i);
        assert s[i + 1..i + 1 + |sub|] == sub;
        assert OccursAt(sub, s, i + 1);
      }
    }
  }

  /** The empty string is included in every string. */
  lemma IncludesEmpty(s: string)
    ensures Includes(s, "")
  {
  }

  // ---------------------------------------------------------------------------
  // Length in UTF-16 code units

  /** The code units of one character: two for a character beyond U+FFFF,
      which UTF-16 writes as a surrogate pair. */
  function CodeUnits(c: char): (n: nat)
    ensures n == 1 || n == 2
  {
    if c as int > 0xFFFF then 2 else 1
  }

  /** `s.length`: JavaScript counts UTF-16 code units, so it lies between the
      number of characters and twice that. */
  function JsLength(s: string): (n: nat)
    ensures |s| <= n <= 2 * |s|
    ensures n == 0 <==> s == []
    decreases |s|
  {
    if s == [] then 0 else JsLength(s[..|s| - 1]) + CodeUnits(s[|s| - 1])
  }

  /** Text within the Basic Multilingual Plane has one code unit per
      character. */
  lemma {:induction false} JsLengthOfBmp(s: string)
    requires forall i :: 0 <= i < |s| ==> s[i] as int <= 0xFFFF
    ensures JsLength(s) == |s|
    decreases |s|
  {
    if s != [] {
      JsLengthOfBmp(s[..|s| - 1]);
    }
  }

  /** Text made only of characters beyond U+FFFF has two code units per
      character. */
  lemma {:induction false} JsLengthOfAstral(s: string)
    requires forall i :: 0 <= i < |s| ==> s[i] as int > 0xFFFF
    ensures JsLength(s) == 2 * |s|
    decreases |s|
  {
    if s != [] {
      JsLengthOfAstral(s[..|s| - 1]);
    }
  }
}
