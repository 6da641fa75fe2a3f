/** Decimal number recognition and parsing as the filter compiler uses it:
    commons-lang `NumberUtils.isCreatable`, `toInt` and `toLong`, and the
    `Integer.parseInt` / `Long.parseLong` they rest on. The recogniser is a
    deliberately simple grammar (optional sign, ASCII digits, optional
    fraction, and the octal rule for a leading zero); the parsers accept
    an optional sign and ASCII digits and fall back to 0 outside the 32-
    or 64-bit range, as `toInt`/`toLong` do on any `NumberFormatException`. */
module JavaNumbers {
  import opened Results

  const INT_MIN: int := -0x8000_0000
  const INT_MAX: int := 0x7fff_ffff
  const LONG_MIN: int := -0x8000_0000_0000_0000
  const LONG_MAX: int := 0x7fff_ffff_ffff_ffff

  predicate IsDigit(c: char) {
    '0' <= c <= '9'
  }

  predicate AllDigits(s: string) {
    forall i | 0 <= i < |s| :: IsDigit(s[i])
  }

  function DigitValue(c: char): nat
    requires IsDigit(c)
  {
    c as int - '0' as int
  }

  function DigitChar(d: nat): char
    requires d < 10
  {
    ('0' as int + d) as char
  }

  /** The value of a run of decimal digits, most significant first. */
  function DecimalValue(s: string): nat
    requires AllDigits(s)
    decreases |s|
  {
    if |s| == 0 then 0 else DecimalValue(s[..|s| - 1]) * 10 + DigitValue(s[|s| - 1])
  }

  function Pow10(k: nat): nat {
    if k == 0 then 1 else 10 * Pow10(k - 1)
  }

  /** `k` digits denote a value below `10^k`. */
  lemma {:induction false} DecimalValueBound(s: string)
    requires AllDigits(s)
    ensures DecimalValue(s) < Pow10(|s|)
    decreases |s|
  {
    if |s| > 0 {
      DecimalValueBound(s[..|s| - 1]);
    }
  }

  /** The digits of a natural number without leading zeros. */
  function NaturalText(n: nat): string
    decreases n
  {
    if n < 10 then [DigitChar(n)] else NaturalText(n / 10) + [DigitChar(n % 10)]
  }

  /** `Integer.toString` / `Long.toString` */
  function DecimalText(n: int): string {
    if n < 0 then "-" + NaturalText(-n) else NaturalText(n)
  }

  predicate IsSign(c: char) {
    c == '-' || c == '+'
  }

  /** What follows an optional leading sign. */
  function Unsigned(s: string): string {
    if |s| > 0 && IsSign(s[0]) then s[1..] else s
  }

  /** Position of the first occurrence of `c` in `s`. */
  function IndexOf(s: string, c: char): (k: nat)
    requires c in s
    ensures k < |s| && s[k] == c && c !in s[..k]
  {
    if s[0] == c then 0
    else
      assert s == [s[0]] + s[1..];
      var k := IndexOf(s[1..], c);
      assert s[..k + 1] == [s[0]] + s[1..][..k];
      k + 1
  }

  predicate IsOctalDigit(c: char) {
    '0' <= c <= '7'
  }

  /** `NumberUtils.isCreatable`, simplified to: an optional sign, one or
      more digits, and optionally a dot followed by one or more digits.
      Without a dot, a leading `0` followed by a digit makes the literal
      octal, and every later digit must then be at most 7. */
  predicate IsCreatable(s: string) {
    var body := Unsigned(s);
    if '.' in body then
      var k := IndexOf(body, '.');
      0 < k && AllDigits(body[..k]) && k + 1 < |body| && AllDigits(body[k + 1..])
    else if |body| > 1 && body[0] == '0' && IsDigit(body[1]) then
      forall i | 1 <= i < |body| :: IsOctalDigit(body[i])
    else
      |body| > 0 && AllDigits(body)
  }

  /** `Integer.parseInt(s)` / `Long.parseLong(s)` before the range check:
      an optional sign followed by one or more digits. */
  function ParseInteger(s: string): Option<int> {
    var digits := Unsigned(s);
    if |digits| == 0 || !AllDigits(digits) then None
    else if s[0] == '-' then Some(-(DecimalValue(digits) as int))
    else Some(DecimalValue(digits))
  }

  /** `NumberUtils.toInt(s)`: the parsed value, or 0 when `parseInt` throws. */
  function ToInt(s: string): (r: int)
    ensures INT_MIN <= r <= INT_MAX
  {
    match ParseInteger(s)
    case Some(n) => if INT_MIN <= n <= INT_MAX then n else 0
    case None => 0
  }

  /** `NumberUtils.toLong(s)`: the parsed value, or 0 when `parseLong` throws. */
  function ToLong(s: string): (r: int)
    ensures LONG_MIN <= r <= LONG_MAX
  {
    match ParseInteger(s)
    case Some(n) => if LONG_MIN <= n <= LONG_MAX then n else 0
    case None => 0
  }

  lemma {:induction false} NaturalTextDigits(n: nat)
    ensures |NaturalText(n)| > 0 && AllDigits(NaturalText(n))
    ensures DecimalValue(NaturalText(n)) == n
    decreases n
  {
    if n >= 10 {
      NaturalTextDigits(n / 10);
      var t := NaturalText(n);
      assert t[..|t| - 1] == NaturalText(n / 10);
    }
  }

  /** Parsing the decimal text of any integer gives the integer back. */
  lemma ParseDecimalText(n: int)
    ensures ParseInteger(DecimalText(n)) == Some(n)
  {
    NaturalTextDigits(if n < 0 then -n else n);
    if n < 0 {
      assert Unsigned(DecimalText(n)) == NaturalText(-n);
    } else {
      assert !IsSign(NaturalText(n)[0]);
    }
  }

  /** Round trip of `NumberUtils.toInt` with `Integer.toString` on the
      32-bit range. */
  lemma ToIntDecimal(n: int)
    requires INT_MIN <= n <= INT_MAX
    ensures ToInt(DecimalText(n)) == n
  {
    ParseDecimalText(n);
  }

  /** Round trip of `NumberUtils.toLong` with `Long.toString` on the
      64-bit range. */
  lemma ToLongDecimal(n: int)
    requires LONG_MIN <= n <= LONG_MAX
    ensures ToLong(DecimalText(n)) == n
  {
    ParseDecimalText(n);
  }

  lemma NoDotInDigits(s: string)
    requires AllDigits(s)
    ensures '.' !in s
  {
    forall i | 0 <= i < |s| ensures s[i] != '.' {
      assert IsDigit(s[i]);
    }
  }

  /** A positive number's text does not start with `0`. */
  lemma {:induction false} NaturalTextLead(n: nat)
    requires n > 0
    ensures NaturalText(n)[0] != '0'
    decreases n
  {
    if n >= 10 {
      NaturalTextLead(n / 10);
    }
  }

  /** The decimal text of an integer is a number literal. */
  lemma DecimalTextIsCreatable(n: int)
    ensures IsCreatable(DecimalText(n))
  {
    var m := if n < 0 then -n else n;
    NaturalTextDigits(m);
    var body := Unsigned(DecimalText(n));
    assert body == NaturalText(m);
    NoDotInDigits(body);
    if m > 0 {
      NaturalTextLead(m);
    }
  }

  /** Leading-zero integers: `isCreatable` accepts them only when they
      are octal, although `toInt`/`toLong` read them as decimal. */
  lemma LeadingZeroIsOctal(s: string)
    requires |s| > 1 && s[0] == '0' && AllDigits(s)
    ensures IsCreatable(s) <==> forall i | 1 <= i < |s| :: IsOctalDigit(s[i])
    ensures ToLong(s) == if DecimalValue(s) <= LONG_MAX then DecimalValue(s) else 0
  {
    NoDotInDigits(s);
    assert !IsSign(s[0]);
  }

  /** A literal with a fraction is a number to `isCreatable`, yet
      `toInt`/`toLong` turn it into 0. */
  lemma FractionParsesAsZero(whole: string, fraction: string)
    requires |whole| > 0 && AllDigits(whole) && |fraction| > 0 && AllDigits(fraction)
    ensures IsCreatable(whole + "." + fraction)
    ensures ToInt(whole + "." + fraction) == 0 && ToLong(whole + "." + fraction) == 0
  {
    var s := whole + "." + fraction;
    assert s[|whole|] == '.';
    assert !IsDigit(s[|whole|]);
    assert !IsSign(s[0]) by { assert s[0] == whole[0]; }
    NoDotInDigits(whole);
    var k := IndexOf(s, '.');
    assert s[..|whole|] == whole;
    assert k == |whole|;
    assert s[..k] == whole;
    assert s[k + 1..] == fraction;
  }
}
