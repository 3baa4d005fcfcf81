/**
 * Python's `str.isdigit()`, `int(s)`, `float(s)` and `str(n)` on the decimal
 * forms the thermostat protocol uses. Digits are ASCII digits.
 */
module PyNumbers {
  import opened Optional
  import opened PyText

  predicate IsDigit(c: char) {
    '0' <= c <= '9'
  }

  /** Every character is an ASCII digit (the empty string included). */
  predicate AllDigits(s: string) {
    forall i :: 0 <= i < |s| ==> IsDigit(s[i])
  }

  /** `s.isdigit()`: non-empty and all digits. */
  predicate IsDigits(s: string) {
    |s| > 0 && AllDigits(s)
  }

  /** Some character of `s` is a digit. */
  predicate HasDigit(s: string) {
    exists i :: 0 <= i < |s| && IsDigit(s[i])
  }

  /** The number a run of decimal digits denotes; the empty run denotes 0. */
  function DigitsValue(s: string): nat
    requires AllDigits(s)
    decreases |s|
  {
    if s == [] then 0 else DigitsValue(s[..|s| - 1]) * 10 + (s[|s| - 1] as int - '0' as int)
  }

  function DigitChar(d: nat): (c: char)
    requires d < 10
    ensures IsDigit(c) && c as int - '0' as int == d
  {
    ('0' as int + d) as char
  }

  /** `str(n)` for a natural number: its shortest decimal spelling. */
  function ShowNat(n: nat): (r: string)
    ensures IsDigits(r)
    ensures r[0] == '0' ==> n == 0
    decreases n
  {
    if n < 10 then [DigitChar(n)] else ShowNat(n / 10) + [DigitChar(n % 10)]
  }

  /** `str(n)` for an integer: a minus sign before the digits of a negative number. */
  function ShowInt(n: int): (r: string)
    ensures |r| > 0
    ensures n >= 0 ==> IsDigits(r)
    ensures n < 0 ==> r[0] == '-' && IsDigits(r[1..])
  {
    if n < 0 then "-" + ShowNat(-n) else ShowNat(n)
  }

  /** Reading back the decimal spelling of `n` gives `n`. */
  lemma {:induction false} DigitsValueShowNat(n: nat)
    ensures DigitsValue(ShowNat(n)) == n
    decreases n
  {
    if n >= 10 {
      DigitsValueShowNat(n / 10);
      var s := ShowNat(n);
      assert s[..|s| - 1] == ShowNat(n / 10);
    }
  }

  /** A run of digits holds no whitespace, so `strip()` leaves it alone. */
  lemma DigitsTrimmed(s: string)
    requires IsDigits(s)
    ensures Strip(s) == s
  {
    StripTrimmed(s);
  }

  /** No character of `str(n)` is a space, a comma, a colon, a dot, an exponent mark or a lower-case letter. */
  lemma ShowIntChars(n: int)
    ensures forall i :: 0 <= i < |ShowInt(n)| ==> ShowInt(n)[i] == '-' || IsDigit(ShowInt(n)[i])
    ensures Strip(ShowInt(n)) == ShowInt(n)
    ensures Upper(ShowInt(n)) == ShowInt(n)
    ensures ',' !in ShowInt(n) && ':' !in ShowInt(n) && '.' !in ShowInt(n)
    ensures 'e' !in ShowInt(n) && 'E' !in ShowInt(n)
  {
    var s := ShowInt(n);
    ShowIntCharClass(n);
    StripTrimmed(s);
    UpperOfUpper(s);
    ShowIntNoMarks(n);
  }

  lemma ShowIntCharClass(n: int)
    ensures forall i :: 0 <= i < |ShowInt(n)| ==> ShowInt(n)[i] == '-' || IsDigit(ShowInt(n)[i])
  {
  }

  lemma ShowIntNoMarks(n: int)
    ensures ',' !in ShowInt(n) && ':' !in ShowInt(n) && '.' !in ShowInt(n)
    ensures 'e' !in ShowInt(n) && 'E' !in ShowInt(n)
  {
    ShowIntCharClass(n);
  }

  /** The digits after an optional `+` or `-`, with the sign they carry. */
  function SignedDigits(t: string): Option<int> {
    if |t| > 0 && (t[0] == '+' || t[0] == '-') then
      if IsDigits(t[1..]) then
        var v: int := DigitsValue(t[1..]);
        Some(if t[0] == '-' then -v else v)
      else None
    else if IsDigits(t) then Some(DigitsValue(t))
    else None
  }

  /** A digit of an infix of `s` is a digit of `s`. */
  lemma HasDigitInfix(s: string, lo: nat, hi: nat)
    requires lo <= hi <= |s| && HasDigit(s[lo..hi])
    ensures HasDigit(s)
  {
    var j :| 0 <= j < hi - lo && IsDigit(s[lo..hi][j]);
    assert s[lo + j] == s[lo..hi][j];
  }

  /** A digit of `strip(s)` is a digit of `s`. */
  lemma HasDigitStrip(s: string)
    requires HasDigit(Strip(s))
    ensures HasDigit(s)
  {
    StripInfix(s);
    HasDigitInfix(s, LeadingSpaces(s), LeadingSpaces(s) + |Strip(s)|);
  }

  /**
   * `int(s)`: surrounding whitespace, an optional sign, then at least one
   * digit; anything else is the `ValueError` case, here `None`.
   */
  function ParseInt(s: string): (r: Option<int>)
    ensures r.Some? ==> HasDigit(s)
    ensures IsDigits(s) ==> r == Some(DigitsValue(s))
  {
    var t := Strip(s);
    var r := SignedDigits(t);
    if r.Some? then
      assert HasDigit(t) by {
        if IsDigits(t) { assert IsDigit(t[0]); } else { assert IsDigit(t[1]); }
      }
      HasDigitStrip(s);
      if IsDigits(s) then DigitsTrimmed(s); r else r
    else
      if IsDigits(s) then DigitsTrimmed(s); r else r
  }

  /** `int(str(n)) == n`. */
  lemma ParseIntShowInt(n: int)
    ensures ParseInt(ShowInt(n)) == Some(n)
  {
    var s := ShowInt(n);
    assert Strip(s) == s by {
      ShowIntCharClass(n);
      StripTrimmed(s);
    }
    SignedDigitsShowInt(n);
  }

  lemma SignedDigitsShowInt(n: int)
    ensures SignedDigits(ShowInt(n)) == Some(n)
  {
    var s := ShowInt(n);
    if n < 0 {
      assert s[1..] == ShowNat(-n);
      DigitsValueShowNat(-n);
    } else {
      DigitsValueShowNat(n);
    }
  }

  function Pow10(n: nat): (r: nat)
    ensures r > 0
  {
    if n == 0 then 1 else 10 * Pow10(n - 1)
  }

  /** `x` times ten to the power `e`, `e` possibly negative. */
  function ScaleByPow10(x: real, e: int): real {
    if e >= 0 then x * Pow10(e) as real else x / Pow10(-e) as real
  }

  /** Position of the first exponent mark `e` or `E`, or `|t|` when there is none. */
  function ExponentMark(t: string): (i: nat)
    ensures i <= |t|
    ensures forall j :: 0 <= j < i ==> t[j] != 'e' && t[j] != 'E'
    ensures i < |t| ==> t[i] == 'e' || t[i] == 'E'
    decreases |t|
  {
    if t == [] || t[0] == 'e' || t[0] == 'E' then 0 else 1 + ExponentMark(t[1..])
  }

  /** The number `whole.frac` denotes. */
  function DecimalValue(whole: string, frac: string): real
    requires AllDigits(whole) && AllDigits(frac)
  {
    DigitsValue(whole) as real + DigitsValue(frac) as real / Pow10(|frac|) as real
  }

  /**
   * A mantissa: digits, optionally split by one `.`, with at least one digit
   * in all (`12`, `12.5`, `12.`, `.5`).
   */
  function ParseMantissa(m: string): (r: Option<real>)
    ensures r.Some? ==> HasDigit(m)
  {
    if '.' in m then
      var k := IndexOf(m, '.');
      var whole := m[..k];
      var frac := m[k + 1..];
      if AllDigits(whole) && AllDigits(frac) && |whole| + |frac| > 0 then
        assert HasDigit(m) by {
          if |whole| > 0 { assert IsDigit(m[0]); } else { assert m[k + 1] == frac[0]; }
        }
        Some(DecimalValue(whole, frac))
      else None
    else if IsDigits(m) then
      assert IsDigit(m[0]);
      Some(DigitsValue(m) as real)
    else None
  }

  /** An unsigned float literal: a mantissa and an optional signed decimal exponent. */
  function ParseUnsignedFloat(t: string): (r: Option<real>)
    ensures r.Some? ==> HasDigit(t)
  {
    var k := ExponentMark(t);
    var mantissa := ParseMantissa(t[..k]);
    var exponent := if k < |t| then SignedDigits(t[k + 1..]) else Some(0);
    if mantissa.Some? && exponent.Some? then
      assert HasDigit(t) by {
        var j :| 0 <= j < k && IsDigit(t[..k][j]);
        assert t[j] == t[..k][j];
      }
      Some(ScaleByPow10(mantissa.value, exponent.value))
    else None
  }

  /** The text after an optional leading `+` or `-`. */
  function Unsigned(t: string): (body: string)
    ensures |body| <= |t| && body == t[|t| - |body|..]
  {
    if |t| > 0 && (t[0] == '+' || t[0] == '-') then t[1..] else t
  }

  /**
   * `float(s)` on decimal literals: surrounding whitespace, an optional sign,
   * a mantissa and an optional exponent. `None` is the `ValueError` case.
   */
  function ParseFloat(s: string): (r: Option<real>)
    ensures r.Some? ==> HasDigit(s)
  {
    var t := Strip(s);
    var x := ParseUnsignedFloat(Unsigned(t));
    if x.None? then None
    else
      var body := Unsigned(t);
      assert HasDigit(t) by {
        var j :| 0 <= j < |body| && IsDigit(body[j]);
        assert t[|t| - |body| + j] == body[j];
      }
      HasDigitStrip(s);
      Some(if |t| > 0 && t[0] == '-' then -x.value else x.value)
  }

  /** A plain run of digits reads as the integer it spells. */
  lemma ParseUnsignedFloatDigits(body: string)
    requires IsDigits(body)
    ensures ParseUnsignedFloat(body) == Some(DigitsValue(body) as real)
  {
    assert forall j :: 0 <= j < |body| ==> body[j] != 'e' && body[j] != 'E';
    assert ExponentMark(body) == |body|;
    assert body[..|body|] == body;
    assert '.' !in body;
    assert ParseMantissa(body) == Some(DigitsValue(body) as real);
    assert Pow10(0) == 1;
    assert ScaleByPow10(DigitsValue(body) as real, 0) == DigitsValue(body) as real;
  }

  /** A run of digits reads as the integer it spells. */
  lemma ParseFloatDigits(t: string)
    requires IsDigits(t)
    ensures ParseFloat(t) == Some(DigitsValue(t) as real)
  {
    DigitsTrimmed(t);
    assert Unsigned(t) == t by { assert IsDigit(t[0]); }
    ParseUnsignedFloatDigits(t);
  }

  /** A minus sign before a run of digits reads as the negated integer. */
  lemma ParseFloatNegativeDigits(t: string)
    requires |t| > 1 && t[0] == '-' && IsDigits(t[1..])
    ensures ParseFloat(t) == Some(-(DigitsValue(t[1..]) as real))
  {
    NegativeDigitsTrimmed(t);
    ParseUnsignedFloatDigits(t[1..]);
  }

  lemma NegativeDigitsTrimmed(t: string)
    requires |t| > 1 && t[0] == '-' && IsDigits(t[1..])
    ensures Strip(t) == t && Unsigned(t) == t[1..]
  {
    assert t[|t| - 1] == t[1..][|t| - 2];
    StripTrimmed(t);
  }

  /** `float(str(m)) == m` for a natural number `m`. */
  lemma ParseFloatShowNat(m: nat)
    ensures ParseFloat(ShowNat(m)) == Some(m as real)
  {
    DigitsValueShowNat(m);
    ParseFloatDigits(ShowNat(m));
  }

  /** `float("-" + str(m)) == -m` for a natural number `m`. */
  lemma ParseFloatMinusShowNat(m: nat)
    ensures ParseFloat("-" + ShowNat(m)) == Some(-(m as real))
  {
    var t := "-" + ShowNat(m);
    assert t[0] == '-' && t[1..] == ShowNat(m);
    DigitsValueShowNat(m);
    ParseFloatNegativeDigits(t);
  }

  /** `float(str(n)) == n` for every integer `n`. */
  lemma ParseFloatShowInt(n: int)
    ensures ParseFloat(ShowInt(n)) == Some(n as real)
  {
    if n < 0 {
      var m: nat := -n;
      ParseFloatMinusShowNat(m);
      assert ShowInt(n) == "-" + ShowNat(m);
      assert n as real == -(m as real);
    } else {
      assert ShowInt(n) == ShowNat(n);
      ParseFloatShowNat(n);
    }
  }
  /** The first occurrence of `c` is at `k` when `s[k] == c` and no earlier character is `c`. */
  lemma IndexOfAt(s: string, c: char, k: nat)
    requires k < |s| && s[k] == c && c !in s[..k]
    ensures IndexOf(s, c) == k
  {
    var i := IndexOf(s, c);
    assert forall j :: 0 <= j < k ==> s[..k][j] == s[j];
    assert forall j :: 0 <= j < i ==> s[..i][j] == s[j];
  }

  /** A mantissa with a point: the digits before it plus the digits after it scaled down. */
  lemma DecimalMantissa(whole: string, frac: string)
    requires AllDigits(whole) && AllDigits(frac) && |whole| + |frac| > 0
    ensures ParseMantissa(whole + "." + frac)
         == Some(DecimalValue(whole, frac))
  {
    var m := whole + "." + frac;
    assert m[|whole|] == '.';
    assert m[..|whole|] == whole;
    assert m[|whole| + 1..] == frac;
    IndexOfAt(m, '.', |whole|);
  }

  /** A decimal literal `whole.frac` with no exponent and no sign. */
  lemma DecimalUnsigned(whole: string, frac: string)
    requires AllDigits(whole) && AllDigits(frac) && |whole| + |frac| > 0
    ensures ParseUnsignedFloat(whole + "." + frac)
         == Some(DecimalValue(whole, frac))
  {
    var m := whole + "." + frac;
    DecimalHasNoExponent(whole, frac);
    assert m[..|m|] == m;
    DecimalMantissa(whole, frac);
    assert Pow10(0) == 1;
    assert ScaleByPow10(DecimalValue(whole, frac), 0) == DecimalValue(whole, frac);
  }

  lemma DecimalHasNoExponent(whole: string, frac: string)
    requires AllDigits(whole) && AllDigits(frac)
    ensures ExponentMark(whole + "." + frac) == |whole + "." + frac|
  {
    var m := whole + "." + frac;
    forall j | 0 <= j < |m| ensures m[j] != 'e' && m[j] != 'E' {
      if j < |whole| {
        assert m[j] == whole[j];
      } else if j > |whole| {
        assert m[j] == frac[j - |whole| - 1];
      }
    }
  }

  /** A decimal spelling `whole.frac` has no whitespace at its ends and no sign. */
  lemma DecimalTrimmed(whole: string, frac: string)
    requires IsDigits(whole) && AllDigits(frac)
    ensures Strip(whole + "." + frac) == whole + "." + frac
    ensures Unsigned(whole + "." + frac) == whole + "." + frac
  {
    var m := whole + "." + frac;
    assert m[0] == whole[0];
    if |frac| > 0 {
      assert m[|m| - 1] == frac[|frac| - 1];
    }
    StripTrimmed(m);
  }

  /** `float("12.5") == 12.5`: a decimal spelling reads as the number it denotes. */
  lemma ParseFloatDecimal(whole: string, frac: string)
    requires IsDigits(whole) && AllDigits(frac)
    ensures ParseFloat(whole + "." + frac)
         == Some(DecimalValue(whole, frac))
  {
    DecimalTrimmed(whole, frac);
    DecimalUnsigned(whole, frac);
  }

  /** `float("-12.5") == -12.5`. */
  lemma ParseFloatNegativeDecimal(whole: string, frac: string)
    requires IsDigits(whole) && AllDigits(frac)
    ensures ParseFloat("-" + whole + "." + frac)
         == Some(-DecimalValue(whole, frac))
  {
    var m := whole + "." + frac;
    var t := "-" + whole + "." + frac;
    assert t == "-" + m;
    NegativeDecimalTrimmed(whole, frac);
    DecimalUnsigned(whole, frac);
  }

  lemma NegativeDecimalTrimmed(whole: string, frac: string)
    requires IsDigits(whole) && AllDigits(frac)
    ensures Strip("-" + whole + "." + frac) == "-" + whole + "." + frac
    ensures Unsigned("-" + whole + "." + frac) == whole + "." + frac
  {
    var t := "-" + whole + "." + frac;
    assert t[1..] == whole + "." + frac;
    if |frac| > 0 {
      assert t[|t| - 1] == frac[|frac| - 1];
    }
    StripTrimmed(t);
  }
}
