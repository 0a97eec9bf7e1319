/** The element type's arithmetic and text forms: the matrix binary fixes the
    element type to the 32-bit signed integer. Values are modelled as `int`;
    the 32-bit range matters where the source checks it, in parsing. */
module Numbers {

  datatype Option<T> = None | Some(value: T)

  const I32_MIN: int := -0x8000_0000
  const I32_MAX: int := 0x7fff_ffff

  predicate InI32(x: int) {
    I32_MIN <= x <= I32_MAX
  }

  /** Signed integer `/` with a positive divisor: rounds toward zero, unlike
      Dafny's Euclidean `/`. */
  function TruncDiv(a: int, b: int): (q: int)
    requires b > 0
    ensures 0 <= a ==> 0 <= q * b <= a < q * b + b
    ensures a < 0 ==> q * b - b < a <= q * b <= 0
  {
    if a >= 0 then DivBounds(a, b); a / b
    else DivBounds(-a, b); -((-a) / b)
  }

  lemma DivBounds(a: nat, b: nat)
    requires b > 0
    ensures 0 <= (a / b) * b <= a < (a / b) * b + b
  {
    assert a == (a / b) * b + a % b;
  }

  predicate IsDigit(c: char) {
    '0' <= c <= '9'
  }

  predicate AllDigits(s: string) {
    forall k :: 0 <= k < |s| ==> IsDigit(s[k])
  }

  function DigitChar(d: nat): (c: char)
    requires d < 10
    ensures IsDigit(c)
  {
    (('0' as int) + d) as char
  }

  function DigitValue(c: char): (d: nat)
    requires IsDigit(c)
    ensures d < 10
  {
    (c as int) - ('0' as int)
  }

  /** Decimal digits of `n` without leading zeros. */
  function NatToString(n: nat): (s: string)
    ensures |s| > 0 && AllDigits(s)
    ensures n > 0 ==> s[0] != '0'
    ensures n == 0 ==> s == "0"
  {
    if n < 10 then [DigitChar(n)] else NatToString(n / 10) + [DigitChar(n % 10)]
  }

  /** Value of a string of decimal digits, most significant first. */
  function DigitsValue(s: string): nat
    requires AllDigits(s)
  {
    if |s| == 0 then 0 else DigitsValue(s[..|s| - 1]) * 10 + DigitValue(s[|s| - 1])
  }

  lemma {:induction false} DigitsValueOfNatToString(n: nat)
    ensures DigitsValue(NatToString(n)) == n
  {
    var s := NatToString(n);
    if n >= 10 {
      DigitsValueOfNatToString(n / 10);
      assert s[..|s| - 1] == NatToString(n / 10);
    }
  }

  /** `to_string` of a signed integer: a `-` for negatives, then the digits. */
  function IntToString(x: int): (s: string)
    ensures |s| > 0 && (s[0] == '-' <==> x < 0)
    ensures x < 0 ==> |s| > 1 && s[1] != '0'
    ensures x > 0 ==> s[0] != '0'
    ensures x == 0 ==> s == "0"
  {
    if x < 0 then "-" + NatToString(-x) else NatToString(x)
  }

  /** `i32::from_str`: an optional `+` or `-`, then one or more ASCII digits,
      and the value must fit in 32 bits; anything else is an error. */
  function ParseInt(tok: string): (r: Option<int>)
    ensures r.Some? ==> InI32(r.value)
    ensures r.Some? ==> |tok| > 0 && forall k :: 0 <= k < |tok| ==> IsDigit(tok[k]) || tok[k] in "+-"
  {
    var negative := |tok| > 0 && tok[0] == '-';
    var digits := if |tok| > 0 && (tok[0] == '+' || tok[0] == '-') then tok[1..] else tok;
    if |digits| == 0 || !AllDigits(digits) then None
    else
      var d: int := DigitsValue(digits);
      var v := if negative then -d else d;
      if InI32(v) then Some(v) else None
  }

  /** Parsing the text an in-range integer prints as gives the integer back. */
  lemma ParseIntToString(x: int)
    requires InI32(x)
    ensures ParseInt(IntToString(x)) == Some(x)
  {
    var s := IntToString(x);
    if x < 0 {
      DigitsValueOfNatToString(-x);
      assert s[1..] == NatToString(-x);
    } else {
      DigitsValueOfNatToString(x);
      assert IsDigit(s[0]);
    }
  }

  /** The value of a token: an optional sign followed by digits gives the
      signed value of the digits when it fits in 32 bits, and nothing
      otherwise. */
  lemma ParseIntValue(sign: string, ds: string)
    requires sign == "" || sign == "+" || sign == "-"
    requires |ds| > 0 && AllDigits(ds)
    ensures var d: int := DigitsValue(ds);
      var v := if sign == "-" then -d else d;
      ParseInt(sign + ds) == if InI32(v) then Some(v) else None
  {
    var tok := sign + ds;
    if sign == "" {
      assert tok == ds && IsDigit(tok[0]);
    } else {
      assert tok[0] == sign[0] && tok[1..] == ds;
    }
  }

  /** Every parsed token is an optional sign followed by one or more digits,
      and its value is their signed value. */
  lemma ParseIntSome(tok: string)
    requires ParseInt(tok).Some?
    ensures (tok[0] == '+' || tok[0] == '-') ==>
      && |tok| > 1 && AllDigits(tok[1..])
      && ParseInt(tok).value == (if tok[0] == '-' then -(DigitsValue(tok[1..]) as int) else DigitsValue(tok[1..]))
    ensures !(tok[0] == '+' || tok[0] == '-') ==>
      AllDigits(tok) && ParseInt(tok).value == DigitsValue(tok)
  {
  }

  /** What a parsed token may look like: never empty, never containing
      whitespace, `+`/`-` only in front. */
  lemma ParseIntRejects(tok: string)
    requires tok == "" || tok == "+" || tok == "-"
      || (exists k :: 0 < k < |tok| && !IsDigit(tok[k]))
    ensures ParseInt(tok) == None
  {
  }
}
