/** String operations the handlers and tables rely on: the SQL `LIKE '%x%'`
    substring test, the leading-dot normalisation of extension names, the logo
    slug, and JavaScript's `parseInt` / `Number.prototype.toString` on the
    decimal integers carried in query strings. */
module Text {
  import opened Wrappers

  /** JavaScript `s || default` on a string: the empty string reads as `default`. */
  function OrElse(s: string, default: string): string {
    if s == "" then default else s
  }

  /** `p` is a prefix of `s`. */
  predicate StartsWith(s: string, p: string) {
    |p| <= |s| && s[..|p|] == p
  }

  /** `needle` occurs contiguously somewhere in `hay`. */
  predicate Contains(hay: string, needle: string)
    decreases |hay|
  {
    StartsWith(hay, needle) || (|hay| > 0 && Contains(hay[1..], needle))
  }

  /** `needle` occurs in `hay` at offset `i`. */
  predicate OccursAt(hay: string, needle: string, i: int) {
    0 <= i && i + |needle| <= |hay| && hay[i..i + |needle|] == needle
  }

  /** The scanning definition of `Contains` agrees with the positional one. */
  lemma ContainsIffOccurs(hay: string, needle: string)
    ensures Contains(hay, needle) <==> exists i :: OccursAt(hay, needle, i)
  {
    if Contains(hay, needle) {
      var i := ContainsWitness(hay, needle);
    }
    if i :| OccursAt(hay, needle, i) {
      OccursContains(hay, needle, i);
    }
  }

  lemma {:induction false} ContainsWitness(hay: string, needle: string) returns (i: nat)
    requires Contains(hay, needle)
    ensures OccursAt(hay, needle, i)
    decreases |hay|
  {
    if StartsWith(hay, needle) {
      i := 0;
    } else {
      var j := ContainsWitness(hay[1..], needle);
      assert hay[1..][j..j + |needle|] == hay[j + 1..j + 1 + |needle|];
      i := j + 1;
    }
  }

  lemma {:induction false} OccursContains(hay: string, needle: string, i: int)
    requires OccursAt(hay, needle, i)
    ensures Contains(hay, needle)
    decreases i
  {
    if i > 0 {
      assert hay[1..][i - 1..i - 1 + |needle|] == hay[i..i + |needle|];
      OccursContains(hay[1..], needle, i - 1);
    }
  }

  /** The extension name as stored: `extension` when it already starts with
      `'.'`, otherwise `'.'` prefixed to it. */
  function NormalizeExtension(extension: string): (r: string)
    ensures |r| > 0 && r[0] == '.'
    ensures StartsWith(extension, ".") ==> r == extension
    ensures !StartsWith(extension, ".") ==> r[1..] == extension
  {
    if StartsWith(extension, ".") then extension else "." + extension
  }

  /** Normalising twice is normalising once. */
  lemma NormalizeIdempotent(extension: string)
    ensures NormalizeExtension(NormalizeExtension(extension)) == NormalizeExtension(extension)
  {
    assert StartsWith(NormalizeExtension(extension), ".");
  }

  predicate IsUpperAscii(c: char) {
    'A' <= c <= 'Z'
  }

  /** `c` with an ASCII capital letter replaced by its small letter. */
  function LowerChar(c: char): (r: char)
    ensures !IsUpperAscii(r)
    ensures !IsUpperAscii(c) ==> r == c
    ensures IsUpperAscii(c) ==> r as int - c as int == 'a' as int - 'A' as int
  {
    if IsUpperAscii(c) then (c as int - 'A' as int + 'a' as int) as char else c
  }

  /** `s` lower-cased character by character (ASCII letters only). */
  function ToLower(s: string): (r: string)
    ensures |r| == |s|
    ensures forall i :: 0 <= i < |s| ==> r[i] == LowerChar(s[i])
  {
    seq(|s|, i requires 0 <= i < |s| => LowerChar(s[i]))
  }

  /** The position of the first `c` in `s`, if any. */
  function IndexOf(s: string, c: char): (r: Option<nat>)
    ensures r.None? <==> c !in s
    ensures r.Some? ==> r.value < |s| && s[r.value] == c && c !in s[..r.value]
    decreases |s|
  {
    if |s| == 0 then None
    else if s[0] == c then Some(0)
    else
      match IndexOf(s[1..], c)
      case None => None
      case Some(i) =>
        assert s[..i + 1] == [s[0]] + s[1..][..i];
        Some(i + 1)
  }

  /** `s` with its first `' '` removed and every other character kept
      (JavaScript `s.replace(' ', '')`, whose string pattern replaces once). */
  function RemoveFirstSpace(s: string): (r: string)
    ensures ' ' !in s ==> r == s
    ensures ' ' in s ==> exists i :: 0 <= i < |s| && s[i] == ' ' && ' ' !in s[..i] && r == s[..i] + s[i + 1..]
    ensures ' ' in s ==> multiset(r) + multiset{' '} == multiset(s)
  {
    match IndexOf(s, ' ')
    case None => s
    case Some(i) =>
      assert s == s[..i] + [s[i]] + s[i + 1..];
      s[..i] + s[i + 1..]
  }

  /** The characters JavaScript's `parseInt` skips before the number: the
      ECMAScript white space and line terminator code points. */
  predicate IsJsWhitespace(c: char) {
    ('\U{0009}' <= c <= '\U{000D}') || c == '\U{0020}' || c == '\U{00A0}' || c == '\U{1680}'
    || ('\U{2000}' <= c <= '\U{200A}') || c == '\U{2028}' || c == '\U{2029}' || c == '\U{202F}'
    || c == '\U{205F}' || c == '\U{3000}' || c == '\U{FEFF}'
  }

  /** `s` without its leading white space. */
  function TrimStart(s: string): (r: string)
    ensures |r| <= |s| && r == s[|s| - |r|..]
    ensures |r| > 0 ==> !IsJsWhitespace(r[0])
    ensures forall i :: 0 <= i < |s| - |r| ==> IsJsWhitespace(s[i])
    decreases |s|
  {
    if |s| > 0 && IsJsWhitespace(s[0]) then TrimStart(s[1..]) else s
  }

  /** The value of `c` as a digit, for `0`-`9`, `a`-`z` and `A`-`Z`; 36 for any
      other character, which is a digit in no base. */
  function DigitValue(c: char): (r: nat)
    ensures r <= 36
  {
    if '0' <= c <= '9' then c as int - '0' as int
    else if 'a' <= c <= 'z' then c as int - 'a' as int + 10
    else if 'A' <= c <= 'Z' then c as int - 'A' as int + 10
    else 36
  }

  predicate IsDigit(c: char, base: nat) {
    DigitValue(c) < base
  }

  /** The longest prefix of `s` made of digits of `base`. */
  function DigitPrefix(s: string, base: nat): (r: string)
    ensures StartsWith(s, r)
    ensures forall i :: 0 <= i < |r| ==> IsDigit(r[i], base)
    ensures |r| < |s| ==> !IsDigit(s[|r|], base)
    decreases |s|
  {
    if |s| > 0 && IsDigit(s[0], base) then [s[0]] + DigitPrefix(s[1..], base) else []
  }

  /** The number that the digit string `ds` denotes in `base`, most
      significant digit first. */
  function DigitsValue(ds: string, base: nat): nat
    decreases |ds|
  {
    if |ds| == 0 then 0
    else DigitsValue(ds[..|ds| - 1], base) * base + DigitValue(ds[|ds| - 1])
  }

  /** JavaScript `parseInt(s)` with no radix argument: leading white space and
      one sign are skipped, a `0x`/`0X` prefix selects base 16, and the longest
      run of digits that follows is read; `None` stands for `NaN`, the result
      when there is no digit. */
  function ParseInt(s: string): (r: Option<int>)
    ensures r.Some? ==> exists i :: 0 <= i < |s| && IsDigit(s[i], 16)
  {
    var t := TrimStart(s);
    var r := ParseSigned(t);
    assert forall i :: 0 <= i < |t| ==> t[i] == s[|s| - |t| + i];
    r
  }

  /** `parseInt` after the white space: an optional sign, then the digits. */
  function ParseSigned(t: string): (r: Option<int>)
    ensures r.Some? ==> exists i :: 0 <= i < |t| && IsDigit(t[i], 16)
  {
    var negative := |t| > 0 && t[0] == '-';
    var unsigned := if |t| > 0 && (t[0] == '-' || t[0] == '+') then t[1..] else t;
    match ParseUnsigned(unsigned)
    case None => None
    case Some(v) =>
      assert unsigned[0] in t;
      Some(if negative then -(v as int) else v)
  }

  /** `parseInt` returns JavaScript's negative zero: after the white space
      comes a minus sign and then a numeral whose value is 0 (`'-0'`, `'-00'`,
      `'-0x0'`). `ParseInt` gives the value 0 for it, without the sign. */
  function ReadsNegativeZero(s: string): (r: bool)
    ensures r ==> ParseInt(s) == Some(0)
  {
    var t := TrimStart(s);
    |t| > 0 && t[0] == '-' && ParseUnsigned(t[1..]) == Some(0)
  }

  /** `parseInt` after the sign: a `0x`/`0X` prefix selects base 16, then the
      longest run of digits of the base is read; `None` when there is none. */
  function ParseUnsigned(u: string): (r: Option<nat>)
    ensures r.Some? ==> |u| > 0 && IsDigit(u[0], 16)
  {
    var hex := |u| >= 2 && u[0] == '0' && (u[1] == 'x' || u[1] == 'X');
    var base := if hex then 16 else 10;
    var body := if hex then u[2..] else u;
    var digits := DigitPrefix(body, base);
    if |digits| == 0 then None
    else Some(DigitsValue(digits, base))
  }

  function DigitChar(d: nat): (c: char)
    requires d < 10
    ensures DigitValue(c) == d
  {
    ('0' as int + d) as char
  }

  /** The decimal numeral of `n`, without sign or leading zeros
      (JavaScript `n.toString()`). */
  function NatToDecimal(n: nat): (r: string)
    ensures |r| > 0
    ensures forall i :: 0 <= i < |r| ==> '0' <= r[i] <= '9'
    ensures n > 0 ==> r[0] != '0'
    ensures DigitsValue(r, 10) == n
    decreases n
  {
    if n < 10 then [DigitChar(n)]
    else
      var r := NatToDecimal(n / 10) + [DigitChar(n % 10)];
      assert r[..|r| - 1] == NatToDecimal(n / 10);
      r
  }

  /** Reading back a decimal numeral yields the number it was written from. */
  lemma ParseDecimal(n: nat)
    ensures ParseInt(NatToDecimal(n)) == Some(n)
  {
    var s := NatToDecimal(n);
    assert n == 0 ==> |s| == 1 by {
      if n == 0 {
        assert s == [DigitChar(0)];
      }
    }
    ParseNumeral(s);
  }

  /** A string of decimal digits without a leading zero is read as the
      number it denotes. */
  lemma ParseNumeral(s: string)
    requires |s| > 0 && forall i :: 0 <= i < |s| ==> '0' <= s[i] <= '9'
    requires s[0] == '0' ==> |s| == 1
    ensures ParseInt(s) == Some(DigitsValue(s, 10))
  {
    assert !IsJsWhitespace(s[0]);
    assert TrimStart(s) == s;
    assert s + "" == s;
    ParseUnsignedDecimal(s, "");
  }

  lemma {:induction false} DigitPrefixAll(s: string, base: nat)
    requires forall i :: 0 <= i < |s| ==> IsDigit(s[i], base)
    ensures DigitPrefix(s, base) == s
    decreases |s|
  {
    if |s| > 0 {
      DigitPrefixAll(s[1..], base);
    }
  }

  /** `parseInt` on URL text: leading white space, then an optional sign, then
      a decimal numeral, then anything that does not continue the numeral
      (`parseInt(" -7")`, `parseInt("3abc")`) reads as the signed number. */
  lemma ParseIntReads(w: string, sign: string, n: nat, rest: string)
    requires forall i :: 0 <= i < |w| ==> IsJsWhitespace(w[i])
    requires sign == "" || sign == "+" || sign == "-"
    requires |rest| > 0 ==> !IsDigit(rest[0], 10)
    requires n == 0 && |rest| > 0 ==> rest[0] != 'x' && rest[0] != 'X'
    ensures ParseInt(w + sign + NatToDecimal(n) + rest) == Some(if sign == "-" then -(n as int) else n)
  {
    var u := NatToDecimal(n) + rest;
    Regroup(w, sign, NatToDecimal(n), rest);
    SignedNumeral(sign, n, rest);
    ParseIntAfterSpace(w, sign + u);
    SignedReads(sign, u, n);
  }

  /** A sign and a decimal numeral: the text does not start with white space,
      and the numeral followed by the rest reads as `n`. */
  lemma SignedNumeral(sign: string, n: nat, rest: string)
    requires sign == "" || sign == "+" || sign == "-"
    requires |rest| > 0 ==> !IsDigit(rest[0], 10)
    requires n == 0 && |rest| > 0 ==> rest[0] != 'x' && rest[0] != 'X'
    ensures var u := NatToDecimal(n) + rest;
      && |u| > 0 && '0' <= u[0] <= '9' && ParseUnsigned(u) == Some(n)
      && |sign + u| > 0 && !IsJsWhitespace((sign + u)[0])
  {
    var ds := NatToDecimal(n);
    var x := sign + (ds + rest);
    assert n == 0 ==> |ds| == 1 by {
      if n == 0 {
        assert ds == [DigitChar(0)];
      }
    }
    if sign == "" {
      assert x[0] == ds[0];
    } else {
      assert x[0] == sign[0];
    }
    ParseUnsignedDecimal(ds, rest);
  }

  lemma Regroup(a: string, b: string, c: string, d: string)
    ensures a + b + c + d == a + (b + (c + d))
  {
  }

  lemma ParseIntAfterSpace(w: string, x: string)
    requires forall i :: 0 <= i < |w| ==> IsJsWhitespace(w[i])
    requires |x| > 0 && !IsJsWhitespace(x[0])
    ensures ParseInt(w + x) == ParseSigned(x)
  {
    TrimStartSkips(w, x);
  }

  /** On the same texts, `parseInt` returns negative zero exactly when the
      sign is a minus and the numeral is 0 (`parseInt(" -0")`). */
  lemma NegativeZeroReads(w: string, sign: string, n: nat, rest: string)
    requires forall i :: 0 <= i < |w| ==> IsJsWhitespace(w[i])
    requires sign == "" || sign == "+" || sign == "-"
    requires |rest| > 0 ==> !IsDigit(rest[0], 10)
    requires n == 0 && |rest| > 0 ==> rest[0] != 'x' && rest[0] != 'X'
    ensures ReadsNegativeZero(w + sign + NatToDecimal(n) + rest) <==> sign == "-" && n == 0
  {
    var u := NatToDecimal(n) + rest;
    Regroup(w, sign, NatToDecimal(n), rest);
    SignedNumeral(sign, n, rest);
    NegativeZeroAfterSpace(w, sign + u);
    SignedNegativeZero(sign, u, n);
  }

  lemma NegativeZeroAfterSpace(w: string, x: string)
    requires forall i :: 0 <= i < |w| ==> IsJsWhitespace(w[i])
    requires |x| > 0 && !IsJsWhitespace(x[0])
    ensures ReadsNegativeZero(w + x) <==> x[0] == '-' && ParseUnsigned(x[1..]) == Some(0)
  {
    TrimStartSkips(w, x);
  }

  /** A sign in front of an unsigned numeral makes negative zero exactly
      when it is a minus and the numeral is 0. */
  lemma SignedNegativeZero(sign: string, u: string, v: nat)
    requires sign == "" || sign == "+" || sign == "-"
    requires |u| > 0 && '0' <= u[0] <= '9'
    requires ParseUnsigned(u) == Some(v)
    ensures var x := sign + u;
      (|x| > 0 && x[0] == '-' && ParseUnsigned(x[1..]) == Some(0)) <==> sign == "-" && v == 0
  {
    var x := sign + u;
    if sign == "" {
      assert x == u;
    } else {
      assert x[0] == sign[0] && x[1..] == u;
    }
  }

  /** The sign in front of an unsigned numeral negates it or is dropped. */
  lemma SignedReads(sign: string, u: string, v: nat)
    requires sign == "" || sign == "+" || sign == "-"
    requires |u| > 0 && '0' <= u[0] <= '9'
    requires ParseUnsigned(u) == Some(v)
    ensures ParseSigned(sign + u) == Some(if sign == "-" then -(v as int) else v)
  {
    var x := sign + u;
    if sign == "" {
      assert x == u;
    } else {
      assert x[0] == sign[0] && x[1..] == u;
    }
  }

  /** A decimal numeral without a leading zero, followed by text that does not
      continue it, is read as the number it denotes. */
  lemma ParseUnsignedDecimal(ds: string, rest: string)
    requires |ds| > 0 && forall i :: 0 <= i < |ds| ==> '0' <= ds[i] <= '9'
    requires ds[0] == '0' ==> |ds| == 1 && (|rest| > 0 ==> rest[0] != 'x' && rest[0] != 'X')
    requires |rest| > 0 ==> !IsDigit(rest[0], 10)
    ensures ParseUnsigned(ds + rest) == Some(DigitsValue(ds, 10))
  {
    var u := ds + rest;
    assert |u| >= 2 && u[0] == '0' ==> u[1] == rest[0];
    assert forall i :: 0 <= i < |ds| ==> IsDigit(ds[i], 10);
    DigitPrefixStops(ds, rest, 10);
  }

  lemma {:induction false} TrimStartSkips(w: string, x: string)
    requires forall i :: 0 <= i < |w| ==> IsJsWhitespace(w[i])
    requires |x| > 0 ==> !IsJsWhitespace(x[0])
    ensures TrimStart(w + x) == x
    decreases |w|
  {
    if |w| > 0 {
      assert (w + x)[1..] == w[1..] + x;
      TrimStartSkips(w[1..], x);
    } else {
      assert w + x == x;
    }
  }

  lemma {:induction false} DigitPrefixStops(ds: string, rest: string, base: nat)
    requires forall i :: 0 <= i < |ds| ==> IsDigit(ds[i], base)
    requires |rest| > 0 ==> !IsDigit(rest[0], base)
    ensures DigitPrefix(ds + rest, base) == ds
    decreases |ds|
  {
    if |ds| > 0 {
      assert (ds + rest)[1..] == ds[1..] + rest;
      DigitPrefixStops(ds[1..], rest, base);
    } else {
      assert ds + rest == rest;
    }
  }
}
