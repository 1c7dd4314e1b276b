/** Decimal integers as text: the `%d` rendering used in buffer labels and the
    `Integer.valueOf` parser used by the slice-expression parser.  Java's `int` is
    32 bits wide; the parser rejects anything outside that range. */
module Decimal {
  import opened Wrappers

  const INT_MIN: int := -0x8000_0000
  const INT_MAX: int := 0x7FFF_FFFF

  /** The values a Java `int` can hold. */
  predicate IsInt32(x: int)
  {
    INT_MIN <= x <= INT_MAX
  }

  /** An ASCII decimal digit. */
  predicate IsDigit(c: char)
  {
    '0' <= c <= '9'
  }

  predicate AllDigits(ds: string)
  {
    forall i :: 0 <= i < |ds| ==> IsDigit(ds[i])
  }

  function DigitChar(d: nat): (c: char)
    requires d < 10
    ensures IsDigit(c) && (c as int) - ('0' as int) == d
  {
    (('0' as int) + d) as char
  }

  /** The number a digit string denotes, most significant digit first. */
  function ValueOf(ds: string): nat
    requires AllDigits(ds)
  {
    if |ds| == 0 then 0
    else ValueOf(ds[..|ds| - 1]) * 10 + ((ds[|ds| - 1] as int) - ('0' as int))
  }

  /** The decimal digits of `n`: never empty, no leading zero, and denoting `n`. */
  function Digits(n: nat): (ds: string)
    ensures |ds| > 0 && AllDigits(ds)
    ensures ds[0] == '0' ==> n == 0 && |ds| == 1
    ensures ValueOf(ds) == n
  {
    if n < 10 then [DigitChar(n)]
    else
      var front := Digits(n / 10);
      var ds := front + [DigitChar(n % 10)];
      assert ds[..|ds| - 1] == front;
      ds
  }

  /** `String.format("%d", i)` / `Integer.toString(i)`: a minus sign for negatives,
      then the digits of the magnitude. */
  function FormatInt(i: int): (s: string)
    ensures |s| > 0
    ensures i >= 0 ==> AllDigits(s)
    ensures i < 0 ==> s[0] == '-' && AllDigits(s[1..])
    ensures forall k :: 0 <= k < |s| ==> IsDigit(s[k]) || (k == 0 && s[k] == '-')
  {
    if i < 0 then "-" + Digits(-i) else Digits(i)
  }

  /** The token without its leading sign, if it has one. */
  function Magnitude(token: string): (m: string)
    ensures |m| <= |token| && m == token[|token| - |m|..]
  {
    if |token| > 0 && (token[0] == '-' || token[0] == '+') then token[1..] else token
  }

  /** The shape `Integer.valueOf` accepts: an optional `+` or `-`, then at least one
      ASCII digit, nothing else. */
  predicate IsIntLiteral(token: string)
  {
    |Magnitude(token)| > 0 && AllDigits(Magnitude(token))
  }

  /** The number an integer literal denotes, whatever its size. */
  function LiteralValue(token: string): int
    requires IsIntLiteral(token)
  {
    if token[0] == '-' then 0 - (ValueOf(Magnitude(token)) as int) else ValueOf(Magnitude(token))
  }

  /** `Integer.valueOf(token)` (radix 10): an optional `+` or `-`, then at least one
      digit, and the value must fit in an `int`.  `None` stands for the
      `NumberFormatException` Java throws otherwise; nothing is trimmed. */
  function ParseInt(token: string): (r: Option<int>)
    ensures r.Some? <==> IsIntLiteral(token) && IsInt32(LiteralValue(token))
    ensures r.Some? ==> r.value == LiteralValue(token)
    ensures r.Some? ==> |token| > 0 && (IsDigit(token[0]) || token[0] == '-' || token[0] == '+')
    ensures r.Some? ==> AllDigits(token[1..])
  {
    var signed := |token| > 0 && (token[0] == '-' || token[0] == '+');
    var body := if signed then token[1..] else token;
    if |body| == 0 || !AllDigits(body) then None
    else
      var v: int := if signed && token[0] == '-' then 0 - (ValueOf(body) as int) else ValueOf(body);
      if IsInt32(v) then Some(v) else None
  }

  /** Every `int` survives being printed and parsed back. */
  lemma ParseFormatRoundTrip(i: int)
    requires IsInt32(i)
    ensures ParseInt(FormatInt(i)) == Some(i)
  {
    var s := FormatInt(i);
    if i < 0 {
      assert s[1..] == Digits(-i);
    }
  }
}
