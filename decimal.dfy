/**
 * Python's `int(s)` on a string, as the tally applies it to a
 * Content-Length header, and `str(n)` as its inverse.
 */
module Decimal {
  import opened Wrappers
  import opened Text

  /** `sys.int_info.default_max_str_digits`: longer digit strings raise ValueError. */
  const MaxStrDigits: nat := 4300

  predicate IsDigit(c: char) {
    '0' <= c <= '9'
  }

  predicate AllDigits(s: string) {
    forall k :: 0 <= k < |s| ==> IsDigit(s[k])
  }

  /** The digits `int()` accepts: ASCII digits, single underscores only between two digits. */
  predicate IsDigitRun(s: string) {
    && |s| > 0 && IsDigit(s[0]) && IsDigit(s[|s| - 1])
    && (forall k :: 0 <= k < |s| ==> IsDigit(s[k]) || s[k] == '_')
    && (forall k :: 0 <= k < |s| - 1 ==> s[k] == '_' ==> s[k + 1] != '_')
  }

  /** The digits of s in order, underscores dropped. */
  function DropUnderscores(s: string): (ds: string)
    requires forall k :: 0 <= k < |s| ==> IsDigit(s[k]) || s[k] == '_'
    ensures AllDigits(ds) && |ds| <= |s|
    ensures AllDigits(s) ==> ds == s
  {
    if s == [] then []
    else
      var init := DropUnderscores(s[..|s| - 1]);
      assert s == s[..|s| - 1] + [s[|s| - 1]];
      if s[|s| - 1] == '_' then init else init + [s[|s| - 1]]
  }

  /** The number a string of decimal digits denotes. */
  function DigitsValue(ds: string): nat
    requires AllDigits(ds)
  {
    if ds == [] then 0
    else 10 * DigitsValue(ds[..|ds| - 1]) + (ds[|ds| - 1] as int - '0' as int)
  }

  /**
   * Python's `int(s)`; None stands for the ValueError it raises. The blanks
   * it skips around the number are those of IntBlanks, not the wider set
   * `str.strip()` removes.
   */
  function ParseInt(s: string): (r: Option<int>)
    ensures AllBlank(IntBlanks, s) ==> r.None?
    ensures r.Some? && r.value < 0 ==> Trim(IntBlanks, s)[0] == '-'
  {
    ParseStripped(Trim(IntBlanks, s))
  }

  /** `int()` once the surrounding blanks are gone: an optional sign, then the digits. */
  function ParseStripped(t: string): (r: Option<int>)
    ensures t == "" ==> r.None?
    ensures r.Some? && r.value < 0 ==> t[0] == '-'
  {
    if |t| > 0 && (t[0] == '+' || t[0] == '-') then
      match ParseDigits(t[1..])
      case None => None
      case Some(magnitude) => if t[0] == '-' then Some(-(magnitude as int)) else Some(magnitude)
    else
      match ParseDigits(t)
      case None => None
      case Some(magnitude) => Some(magnitude)
  }

  /** The unsigned part: a digit run of at most MaxStrDigits digits. */
  function ParseDigits(digits: string): (r: Option<nat>)
    ensures r.Some? ==> IsDigitRun(digits)
  {
    if !IsDigitRun(digits) then None
    else
      var ds := DropUnderscores(digits);
      if |ds| > MaxStrDigits then None
      else Some(DigitsValue(ds))
  }

  predicate IsSign(sign: string) {
    sign == "" || sign == "+" || sign == "-"
  }

  /** The value of an optionally signed digit run. */
  function SignedValue(sign: string, d: string): int
    requires IsSign(sign) && IsDigitRun(d)
  {
    var magnitude: int := DigitsValue(DropUnderscores(d));
    if sign == "-" then -magnitude else magnitude
  }

  /**
   * What `int()` accepts: an optional sign and a digit run of at most
   * MaxStrDigits digits parse to their value.
   */
  lemma ParseSignedRun(sign: string, d: string)
    requires IsSign(sign) && IsDigitRun(d) && |DropUnderscores(d)| <= MaxStrDigits
    ensures ParseInt(sign + d) == Some(SignedValue(sign, d))
  {
    SignedRunIsTrimmed(sign, d);
    ParseStrippedSigned(sign, d);
  }

  /** A signed digit run has no blanks to trim. */
  lemma SignedRunIsTrimmed(sign: string, d: string)
    requires IsSign(sign) && IsDigitRun(d)
    ensures Trim(IntBlanks, sign + d) == sign + d
  {
    var t := sign + d;
    assert IsTrimmed(IntBlanks, t) by {
      assert t[|t| - 1] == d[|d| - 1];
      assert sign == "" ==> t[0] == d[0];
    }
    TrimSurrounded(IntBlanks, "", t, "");
    assert "" + t + "" == t;
  }

  lemma ParseStrippedSigned(sign: string, d: string)
    requires IsSign(sign) && IsDigitRun(d) && |DropUnderscores(d)| <= MaxStrDigits
    ensures ParseStripped(sign + d) == Some(SignedValue(sign, d))
  {
    if sign == "" {
      assert sign + d == d;
      ParseStrippedUnsigned(d);
    } else {
      ParseStrippedWithSign(sign, d);
    }
  }

  lemma ParseStrippedUnsigned(d: string)
    requires IsDigitRun(d) && |DropUnderscores(d)| <= MaxStrDigits
    ensures ParseStripped(d) == Some(DigitsValue(DropUnderscores(d)))
  {
    assert IsDigit(d[0]);
  }

  lemma ParseStrippedWithSign(sign: string, d: string)
    requires sign == "+" || sign == "-"
    requires IsDigitRun(d) && |DropUnderscores(d)| <= MaxStrDigits
    ensures ParseStripped(sign + d) == Some(SignedValue(sign, d))
  {
    var t := sign + d;
    assert t[0] == sign[0] && t[1..] == d;
  }

  /** And only that: whatever `int()` accepts is a sign and a digit run inside blanks. */
  lemma ParseIntShape(s: string) returns (sign: string, d: string)
    requires ParseInt(s).Some?
    ensures IsSign(sign) && IsDigitRun(d) && |DropUnderscores(d)| <= MaxStrDigits
    ensures Trim(IntBlanks, s) == sign + d
    ensures ParseInt(s) == Some(SignedValue(sign, d))
  {
    sign, d := ParseStrippedShape(Trim(IntBlanks, s));
  }

  lemma ParseStrippedShape(t: string) returns (sign: string, d: string)
    requires ParseStripped(t).Some?
    ensures IsSign(sign) && IsDigitRun(d) && |DropUnderscores(d)| <= MaxStrDigits
    ensures t == sign + d
    ensures ParseStripped(t) == Some(SignedValue(sign, d))
  {
    if t[0] == '+' || t[0] == '-' {
      sign, d := t[..1], t[1..];
      assert sign == "+" || sign == "-";
    } else {
      sign, d := "", t;
    }
    assert t == sign + d;
    ParseStrippedSigned(sign, d);
  }

  /** Blanks around the number do not matter to `int()`. */
  lemma ParseIgnoresSurroundingSpace(p: string, s: string, q: string)
    requires AllBlank(IntBlanks, p) && AllBlank(IntBlanks, q)
    ensures ParseInt(p + s + q) == ParseInt(s)
  {
    TrimIgnoresSurroundingBlanks(IntBlanks, p, s, q);
  }

  /**
   * The information separators U+001C..U+001F are whitespace to
   * `str.strip()` but not to `int()`: one in front of a number is an error.
   */
  lemma ParseRejectsSeparator(c: char, s: string)
    requires 0x1C <= c as int <= 0x1F
    ensures IsSpace(c)
    ensures ParseInt([c] + s) == None
  {
    var u := [c] + s;
    assert !IsBlank(IntBlanks, u[0]);
    var t := Trim(IntBlanks, u);
    assert LeadingBlanks(IntBlanks, u) == 0;
    assert t != "" && t[0] == c;
  }

  function DigitChar(d: nat): (c: char)
    requires d < 10
    ensures IsDigit(c) && c as int - '0' as int == d
  {
    ('0' as int + d) as char
  }

  /** The decimal digits of m, most significant first, without leading zeros. */
  function Digits(m: nat): (ds: string)
    ensures |ds| > 0 && AllDigits(ds)
  {
    if m < 10 then [DigitChar(m)] else Digits(m / 10) + [DigitChar(m % 10)]
  }

  /** Python's `str(n)`. */
  function FormatInt(n: int): (s: string)
  {
    if n < 0 then "-" + Digits(-n) else Digits(n)
  }

  lemma {:induction false} DigitsValueOfDigits(m: nat)
    ensures DigitsValue(Digits(m)) == m
  {
    if m >= 10 {
      DigitsValueOfDigits(m / 10);
      var ds := Digits(m);
      assert ds[..|ds| - 1] == Digits(m / 10);
    }
  }

  /** `int(str(n)) == n` for every n within the digit limit. */
  lemma ParseFormat(n: int)
    requires |Digits(if n < 0 then -n else n)| <= MaxStrDigits
    ensures ParseInt(FormatInt(n)) == Some(n)
  {
    var s := FormatInt(n);
    assert Trim(IntBlanks, s) == s by {
      FormatIsStripped(n);
      TrimSurrounded(IntBlanks, "", s, "");
      assert "" + s + "" == s;
    }
    ParseStrippedFormat(n);
  }

  lemma ParseStrippedFormat(n: int)
    requires |Digits(if n < 0 then -n else n)| <= MaxStrDigits
    ensures ParseStripped(FormatInt(n)) == Some(n)
  {
    var m := if n < 0 then -n else n;
    DigitsAreRun(m);
    DigitsValueOfDigits(m);
    if n < 0 {
      ParseNegative(m);
    } else {
      ParseNonNegative(m);
    }
  }

  lemma DigitsAreRun(m: nat)
    ensures IsDigitRun(Digits(m)) && DropUnderscores(Digits(m)) == Digits(m)
  {
  }

  lemma ParseNonNegative(m: nat)
    requires |Digits(m)| <= MaxStrDigits
    requires IsDigitRun(Digits(m)) && DropUnderscores(Digits(m)) == Digits(m)
    ensures ParseStripped(Digits(m)) == Some(DigitsValue(Digits(m)))
  {
    assert IsDigit(Digits(m)[0]);
  }

  lemma ParseNegative(m: nat)
    requires |Digits(m)| <= MaxStrDigits
    requires IsDigitRun(Digits(m)) && DropUnderscores(Digits(m)) == Digits(m)
    ensures ParseStripped("-" + Digits(m)) == Some(0 - DigitsValue(Digits(m)) as int)
  {
    var s := "-" + Digits(m);
    assert s[0] == '-' && s[1..] == Digits(m);
  }

  lemma FormatIsStripped(n: int)
    ensures IsTrimmed(IntBlanks, FormatInt(n))
  {
    var s := FormatInt(n);
    var ds := Digits(if n < 0 then -n else n);
    assert s[|s| - 1] == ds[|ds| - 1];
    assert IsDigit(s[0]) || s[0] == '-';
  }
}
