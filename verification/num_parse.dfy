/** Rust's `str::parse` for the numeric types the day-entry upsert reads (`i32`, `i64`, `f64`),
    and `to_string` for integers, the partner that the integer parser inverts. */
module NumParse {
  import opened Wrappers
  import opened MachineInts

  predicate IsDigit(c: char) {
    '0' <= c <= '9'
  }

  predicate AllDigits(s: string) {
    forall k :: 0 <= k < |s| ==> IsDigit(s[k])
  }

  function DigitValue(c: char): nat
    requires IsDigit(c)
  {
    c as int - '0' as int
  }

  function DigitChar(d: nat): (c: char)
    requires d < 10
    ensures IsDigit(c) && DigitValue(c) == d
  {
    ('0' as int + d) as char
  }

  /** The number a string of decimal digits denotes (most significant digit first). */
  function DigitsValue(s: string): nat
    requires AllDigits(s)
    decreases |s|
  {
    if |s| == 0 then 0 else DigitsValue(s[..|s| - 1]) * 10 + DigitValue(s[|s| - 1])
  }

  /** `<iN as FromStr>::from_str` for a signed type whose range is `lo..=hi`: an optional
      `+` or `-`, then at least one ASCII digit and nothing else; out of range is an error. */
  function ParseSigned(s: string, lo: int, hi: int): (r: Option<int>)
    ensures r.Some? ==> lo <= r.value <= hi
    ensures |s| == 0 ==> r.None?
    ensures (exists k :: 0 <= k < |s| && !IsDigit(s[k]) && !(k == 0 && s[0] in "+-")) ==> r.None?
  {
    var signed := |s| > 0 && (s[0] == '+' || s[0] == '-');
    var digits := if signed then s[1..] else s;
    if |digits| == 0 || !AllDigits(digits) then None
    else
      var magnitude: int := DigitsValue(digits);
      var v := if signed && s[0] == '-' then -magnitude else magnitude;
      if lo <= v <= hi then Some(v) else None
  }

  function ParseI32(s: string): Option<i32> {
    match ParseSigned(s, I32_MIN, I32_MAX)
    case Some(v) => Some(v as i32)
    case None => None
  }

  function ParseI64(s: string): Option<i64> {
    match ParseSigned(s, I64_MIN, I64_MAX)
    case Some(v) => Some(v as i64)
    case None => None
  }

  /** Decimal rendering of a natural number without leading zeros. */
  function ShowNat(n: nat): (s: string)
    ensures |s| > 0 && AllDigits(s)
    decreases n
  {
    if n < 10 then [DigitChar(n)] else ShowNat(n / 10) + [DigitChar(n % 10)]
  }

  /** `i64::to_string`. */
  function ShowInt(n: int): string {
    if n < 0 then "-" + ShowNat(-n) else ShowNat(n)
  }

  lemma {:induction false} DigitsValueShowNat(n: nat)
    ensures DigitsValue(ShowNat(n)) == n
    decreases n
  {
    var s := ShowNat(n);
    if n >= 10 {
      DigitsValueShowNat(n / 10);
      assert s[..|s| - 1] == ShowNat(n / 10);
    }
  }

  /** Parsing inverts rendering: every in-range integer survives `to_string` then `parse`. */
  lemma ParseShowRoundTrip(n: int, lo: int, hi: int)
    requires lo <= n <= hi
    ensures ParseSigned(ShowInt(n), lo, hi) == Some(n)
  {
    var m := if n < 0 then -n else n;
    DigitsValueShowNat(m);
    var s := ShowInt(n);
    if n < 0 {
      assert s[0] == '-' && s[1..] == ShowNat(m);
    } else {
      assert s == ShowNat(m) && IsDigit(s[0]);
      assert s[0] != '+' && s[0] != '-';
    }
  }

  /** The value `f64::from_str` denotes, without rounding to the nearest double. */
  datatype Float = Finite(value: real) | Infinite(negative: bool) | NaN

  function Pow10(e: int): (p: real)
    ensures p > 0.0
    decreases if e < 0 then -e else e
  {
    if e == 0 then 1.0
    else if e > 0 then 10.0 * Pow10(e - 1)
    else Pow10(e + 1) / 10.0
  }

  /** The first index holding `a` or `b`, or `|s|` when there is none. */
  function IndexOfEither(s: string, a: char, b: char): (i: nat)
    ensures i <= |s|
    ensures forall k :: 0 <= k < i ==> s[k] != a && s[k] != b
    ensures i < |s| ==> s[i] == a || s[i] == b
  {
    if |s| == 0 then 0
    else if s[0] == a || s[0] == b then 0
    else 1 + IndexOfEither(s[1..], a, b)
  }

  function AsciiLower(s: string): string {
    seq(|s|, k requires 0 <= k < |s| => if 'A' <= s[k] <= 'Z' then (s[k] as int + 0x20) as char else s[k])
  }

  /** The exponent after `e`/`E`: an optional sign, then at least one digit. */
  function ParseExponent(s: string): Option<int> {
    var signed := |s| > 0 && (s[0] == '+' || s[0] == '-');
    var digits := if signed then s[1..] else s;
    if |digits| == 0 || !AllDigits(digits) then None
    else if signed && s[0] == '-' then Some(-(DigitsValue(digits) as int))
    else Some(DigitsValue(digits))
  }

  /** `whole.fraction * 10^exponent` for a digit string `fraction`. */
  function Scale(whole: nat, fraction: string, exponent: int): real
    requires AllDigits(fraction)
  {
    (whole as real + DigitsValue(fraction) as real / Pow10(|fraction|)) * Pow10(exponent)
  }

  /** `Digit+ | Digit+ '.' Digit* | Digit* '.' Digit+`, optionally followed by an exponent. */
  function ParseUnsignedDecimal(s: string): (r: Option<real>)
    ensures r.Some? ==> |s| > 0
  {
    var e := IndexOfEither(s, 'e', 'E');
    var mantissa := s[..e];
    var exponent := if e < |s| then ParseExponent(s[e + 1..]) else Some(0);
    var d := IndexOfEither(mantissa, '.', '.');
    var whole := mantissa[..d];
    var fraction := if d < |mantissa| then mantissa[d + 1..] else "";
    if exponent.None? || !AllDigits(whole) || !AllDigits(fraction) || |whole| + |fraction| == 0 then None
    else
      Some(Scale(DigitsValue(whole), fraction, exponent.value))
  }

  /** `<f64 as FromStr>::from_str`: an optional sign, then `inf`, `infinity` or `nan` in any
      case, or a decimal number. */
  function ParseF64(s: string): (r: Option<Float>)
    ensures |s| == 0 ==> r.None?
  {
    var signed := |s| > 0 && (s[0] == '+' || s[0] == '-');
    var negative := signed && s[0] == '-';
    var body := if signed then s[1..] else s;
    var word := AsciiLower(body);
    if word == "inf" || word == "infinity" then Some(Infinite(negative))
    else if word == "nan" then Some(NaN)
    else
      match ParseUnsignedDecimal(body)
      case None => None
      case Some(v) => Some(Finite(if negative then -v else v))
  }

  /** A plain run of digits means the same number to the float parser as to the integer parser. */
  lemma ParseF64Digits(s: string)
    requires |s| > 0 && AllDigits(s)
    ensures ParseF64(s) == Some(Finite(DigitsValue(s) as real))
    ensures ParseSigned(s, 0, DigitsValue(s)) == Some(DigitsValue(s))
  {
    var e := IndexOfEither(s, 'e', 'E');
    assert e == |s|;
    assert s[..e] == s;
    var d := IndexOfEither(s, '.', '.');
    assert d == |s|;
    assert s[..d] == s;
    assert Scale(DigitsValue(s), "", 0) == DigitsValue(s) as real;
    assert IsDigit(AsciiLower(s)[0]);
  }
}
