/**
  The few pieces of Java semantics the layout code relies on: exceptions as
  values, the `(byte)` narrowing cast, truncating integer division, and the
  decimal conversions behind `"" + (byte) px` and `Byte.parseByte`.
*/
module JavaLang {

  /** The unchecked exceptions the modelled code can throw. */
  datatype Exception =
    | NullPointerException
    | NumberFormatException
    | IllegalArgumentException

  /** A Java call that either returns a value or throws. */
  datatype Result<T> = Ok(value: T) | Err(error: Exception) {
    predicate IsFailure() {
      Err?
    }

    function PropagateFailure<U>(): Result<U>
      requires Err?
    {
      Err(error)
    }

    function Extract(): T
      requires Ok?
    {
      value
    }
  }

  /** A Java `void` call that either completes or throws. */
  datatype Outcome = Pass | Fail(error: Exception)

  /** A nullable reference or an absent map entry. */
  datatype Option<T> = None | Some(value: T)

  /** Java's `byte`: a signed 8-bit integer. */
  type Byte = b: int | -128 <= b <= 127

  /** The narrowing cast `(byte) n`: keep the low 8 bits, read them as two's complement. */
  function ToByte(n: int): (b: Byte)
  {
    (n + 128) % 256 - 128
  }

  lemma ToByteWraps(n: int)
    ensures (n - ToByte(n)) % 256 == 0
    ensures -128 <= n <= 127 ==> ToByte(n) == n
  {
    var q := (n + 128) / 256;
    assert n + 128 == 256 * q + (n + 128) % 256;
    assert n - ToByte(n) == 256 * q;
  }

  /** Java's `a / b` on `int`: the quotient is truncated toward zero. */
  function JavaDiv(a: int, b: int): (q: int)
    requires b != 0
  {
    var mag := (if a < 0 then -a else a) / (if b < 0 then -b else b);
    if (a < 0) == (b < 0) then mag else -mag
  }

  lemma JavaDivNonNegative(a: int, b: int)
    requires a >= 0 && b > 0
    ensures JavaDiv(a, b) == a / b
    ensures 0 <= JavaDiv(a, b) * b <= a
  {
    assert JavaDiv(a, b) == a / b;
    QuotientTimesDivisor(a, b);
  }

  lemma QuotientTimesDivisor(a: int, b: int)
    requires a >= 0 && b > 0
    ensures 0 <= (a / b) * b <= a
  {
    var q, r := a / b, a % b;
    assert a == q * b + r && 0 <= r < b;
    assert q >= 0;
    MulNonNegative(q, b);
  }

  lemma MulNonNegative(x: int, y: int)
    requires x >= 0 && y >= 0
    ensures x * y >= 0
  {
  }

  lemma JavaDivNegative(a: int, b: int)
    requires a < 0 && b > 0
    ensures JavaDiv(a, b) == -((-a) / b)
    ensures a <= JavaDiv(a, b) * b <= 0
  {
    JavaDivNonNegative(-a, b);
  }

  /** `total / 100 * percent` as the source writes it: divide first, then multiply. */
  function PercentOf(total: int, percent: int): (r: int)
  {
    JavaDiv(total, 100) * percent
  }

  lemma PercentOfBounds(total: int, percent: int)
    requires total >= 0 && 0 <= percent <= 100
    ensures 0 <= PercentOf(total, percent) <= total
    ensures percent == 100 ==> total - 100 < PercentOf(total, percent)
  {
    JavaDivNonNegative(total, 100);
    var q := total / 100;
    assert 0 <= q * percent <= q * 100 by {
      assert q >= 0;
    }
  }

  /** Dividing before multiplying drops the remainder of `total / 100`. */
  lemma PercentOfTruncates()
    ensures PercentOf(1000, 30) == 300
    ensures PercentOf(150, 50) == 50
    ensures PercentOf(-150, 50) == -50
  {
  }

  // DECIMAL STRINGS

  predicate IsDigit(c: char) {
    '0' <= c <= '9'
  }

  predicate AllDigits(s: string) {
    forall i :: 0 <= i < |s| ==> IsDigit(s[i])
  }

  function DigitChar(d: int): (c: char)
    requires 0 <= d <= 9
    ensures IsDigit(c) && c as int - '0' as int == d
  {
    ('0' as int + d) as char
  }

  /** The digits of `n` in base 10, most significant first, no leading zeros. */
  function NatToDecimal(n: nat): (s: string)
    ensures |s| >= 1 && AllDigits(s)
    ensures n > 0 ==> s[0] != '0'
    decreases n
  {
    if n < 10 then [DigitChar(n)] else NatToDecimal(n / 10) + [DigitChar(n % 10)]
  }

  /** `Integer.toString(n)`, which is also what `"" + b` yields for a byte `b`. */
  function IntToDecimal(n: int): (s: string)
  {
    if n < 0 then "-" + NatToDecimal(-n) else NatToDecimal(n)
  }

  /** The value of a string of decimal digits, read most significant first. */
  function DigitsValue(s: string): (v: nat)
    requires AllDigits(s)
    decreases |s|
  {
    if s == [] then 0
    else DigitsValue(s[..|s| - 1]) * 10 + (s[|s| - 1] as int - '0' as int)
  }

  /**
    `Byte.parseByte(s)`: an optional leading '-' or '+', then at least one
    decimal digit, and a value within [-128, 127]; anything else throws
    NumberFormatException.
  */
  function ParseByte(s: string): (r: Result<Byte>)
  {
    if |s| == 0 then Err(NumberFormatException)
    else
      var signed := s[0] == '-' || s[0] == '+';
      var digits := if signed then s[1..] else s;
      if |digits| == 0 || !AllDigits(digits) then Err(NumberFormatException)
      else
        var v: int := if s[0] == '-' then -(DigitsValue(digits) as int) else DigitsValue(digits);
        if -128 <= v <= 127 then Ok(v) else Err(NumberFormatException)
  }

  lemma {:induction false} DigitsValueOfDecimal(n: nat)
    ensures DigitsValue(NatToDecimal(n)) == n
    decreases n
  {
    var s := NatToDecimal(n);
    if n >= 10 {
      var prefix := NatToDecimal(n / 10);
      assert s[..|s| - 1] == prefix;
      DigitsValueOfDecimal(n / 10);
    }
  }

  /** Parsing what `Integer.toString` printed gives back the byte. */
  lemma ParseByteOfDecimal(b: Byte)
    ensures ParseByte(IntToDecimal(b)) == Ok(b)
  {
    var s := IntToDecimal(b);
    var m: nat := if b < 0 then -(b as int) else b as int;
    var digits := NatToDecimal(m);
    DigitsValueOfDecimal(m);
    if b < 0 {
      assert s == "-" + digits && s[0] == '-';
      assert s[1..] == digits;
    } else {
      assert s == digits && IsDigit(s[0]);
    }
  }

  /**
    The string a padding setter stores for `px`, parsed back as the layout
    pass parses it, is `(byte) px`: `px` wrapped modulo 256 into [-128, 127].
  */
  lemma PaddingStringRoundTrip(px: int)
    ensures ParseByte(IntToDecimal(ToByte(px))) == Ok(ToByte(px))
    ensures (px - ParseByte(IntToDecimal(ToByte(px))).value) % 256 == 0
  {
    ParseByteOfDecimal(ToByte(px));
    ToByteWraps(px);
  }

  /** Strings the parser refuses. */
  lemma ParseByteRejects()
    ensures ParseByte("") == Err(NumberFormatException)
    ensures ParseByte("-") == Err(NumberFormatException)
    ensures ParseByte("128") == Err(NumberFormatException)
    ensures ParseByte("5px") == Err(NumberFormatException)
    ensures ParseByte("+007") == Ok(7)
  {
    assert "128"[..2] == "12";
    assert "12"[..1] == "1";
    assert "007"[..2] == "00";
    assert "00"[..1] == "0";
  }
}
