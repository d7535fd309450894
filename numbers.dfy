/**
 * The number conversions of Go's `strconv` package that the SBS decoder
 * relies on (`Atoi`, `ParseFloat`, `Itoa`) and Go's float-to-int conversion.
 * Numbers are unbounded here; the 64-bit range of Go's `int` is written out.
 */
module Numbers {
  import opened Wrappers

  const MinInt64: int := -0x8000_0000_0000_0000
  const MaxInt64: int := 0x7fff_ffff_ffff_ffff

  /** The function that produced a `*strconv.NumError`, and the text it refused. */
  datatype NumFunc = FnAtoi | FnParseFloat
  datatype NumError = NumError(fn: NumFunc, num: string)

  predicate IsDigit(c: char)
  {
    '0' <= c <= '9'
  }

  predicate AllDigits(s: string)
  {
    forall i :: 0 <= i < |s| ==> IsDigit(s[i])
  }

  function DigitValue(c: char): nat
    requires IsDigit(c)
  {
    (c as int) - ('0' as int)
  }

  /** The value of a string of decimal digits, most significant first; "" is 0. */
  function DecimalValue(s: string): nat
    requires AllDigits(s)
  {
    if s == [] then 0 else 10 * DecimalValue(s[..|s| - 1]) + DigitValue(s[|s| - 1])
  }

  /** Length of the longest prefix of `s` that consists of digits. */
  function DigitRun(s: string): (k: nat)
    ensures k <= |s| && AllDigits(s[..k])
    ensures k < |s| ==> !IsDigit(s[k])
  {
    if s == [] || !IsDigit(s[0]) then 0
    else
      var k := 1 + DigitRun(s[1..]);
      assert s[..k] == [s[0]] + s[1..][..k - 1];
      k
  }

  /** An optional leading '+' or '-': whether it was '-', and the rest of the text. */
  function SignAndRest(s: string): (bool, string)
  {
    if |s| > 0 && (s[0] == '-' || s[0] == '+') then (s[0] == '-', s[1..]) else (false, s)
  }

  /**
   * `strconv.Atoi` on a 64-bit platform: an optional sign and at least one
   * decimal digit, whose value fits in an int64; anything else is an error
   * naming Atoi and the refused text.
   */
  function Atoi(s: string): (r: Result<int, NumError>)
    ensures r.Success? ==> MinInt64 <= r.value <= MaxInt64
    ensures r.Failure? ==> r.error == NumError(FnAtoi, s)
    ensures r.Success? ==> |s| > 0 && (IsDigit(s[0]) || s[0] == '-' || s[0] == '+')
    ensures r.Success? && r.value < 0 ==> s[0] == '-'
  {
    var (neg, body) := SignAndRest(s);
    if body == [] || !AllDigits(body) then Failure(NumError(FnAtoi, s))
    else
      var n: int := if neg then -(DecimalValue(body) as int) else DecimalValue(body);
      if MinInt64 <= n <= MaxInt64 then Success(n) else Failure(NumError(FnAtoi, s))
  }

  function Pow10(n: nat): (p: nat)
    ensures p >= 1
  {
    if n == 0 then 1 else 10 * Pow10(n - 1)
  }

  /** m * 10^e for an integer exponent `e`. */
  function Scale(m: nat, e: int): real
  {
    if e >= 0 then (m * Pow10(e)) as real else (m as real) / (Pow10(-e) as real)
  }

  /** The exponent part of a float literal: "" or e/E, an optional sign, and digits. */
  function Exponent(s: string): Option<int>
  {
    if s == [] then Some(0)
    else if s[0] != 'e' && s[0] != 'E' then None
    else
      var (neg, digits) := SignAndRest(s[1..]);
      if digits == [] || !AllDigits(digits) then None
      else Some(if neg then -(DecimalValue(digits) as int) else DecimalValue(digits))
  }

  lemma AllDigitsConcat(a: string, b: string)
    requires AllDigits(a) && AllDigits(b)
    ensures AllDigits(a + b)
  {
    forall k | 0 <= k < |a + b| ensures IsDigit((a + b)[k]) {
      if k < |a| { assert (a + b)[k] == a[k]; } else { assert (a + b)[k] == b[k - |a|]; }
    }
  }

  /**
   * The mantissa of a float literal: its integer digits, its fraction digits
   * (after an optional '.') and the text after them, as "12.5e3" into "12", "5", "e3".
   */
  function SplitMantissa(t: string): (r: (string, string, string))
    ensures AllDigits(r.0) && AllDigits(r.1)
  {
    var i := DigitRun(t);
    if i < |t| && t[i] == '.' then
      var u := t[i + 1..];
      var k := DigitRun(u);
      (t[..i], u[..k], u[k..])
    else
      (t[..i], "", t[i..])
  }

  /**
   * `strconv.ParseFloat(s, 32)` on the decimal notation: an optional sign, a
   * mantissa with at least one digit and an optional '.', and an optional
   * exponent. The value is the exact decimal number the text denotes.
   */
  function ParseFloat(s: string): (r: Result<real, NumError>)
    ensures r.Failure? ==> r.error == NumError(FnParseFloat, s)
  {
    var (neg, t) := SignAndRest(s);
    var (intPart, fracPart, rest) := SplitMantissa(t);
    if |intPart| + |fracPart| == 0 then Failure(NumError(FnParseFloat, s))
    else
      match Exponent(rest)
      case None => Failure(NumError(FnParseFloat, s))
      case Some(e) =>
        AllDigitsConcat(intPart, fracPart);
        var v := Scale(DecimalValue(intPart + fracPart), e - |fracPart|);
        Success(if neg then -v else v)
  }

  /** Text without any digit is never a number. */
  lemma ParseFloatNeedsDigit(s: string)
    requires forall k :: 0 <= k < |s| ==> !IsDigit(s[k])
    ensures ParseFloat(s).Failure?
  {
  }

  /** Go's `int(x)` on a float: truncation toward zero. */
  function TruncToInt(x: real): (n: int)
    ensures x >= 0.0 ==> n >= 0 && n as real <= x < n as real + 1.0
    ensures x < 0.0 ==> n <= 0 && n as real - 1.0 < x <= n as real
  {
    if x >= 0.0 then x.Floor else -((-x).Floor)
  }

  /** The decimal digits of `n`, most significant first, without leading zeros. */
  function Digits(n: nat): (s: string)
    ensures |s| >= 1 && AllDigits(s) && DecimalValue(s) == n
    ensures |s| > 1 ==> s[0] != '0'
  {
    var d := ['0' + ((n % 10) as char)];
    if n < 10 then d
    else
      var s := Digits(n / 10) + d;
      assert s[..|s| - 1] == Digits(n / 10);
      s
  }

  /** `strconv.Itoa`: the shortest decimal text of `n`, with '-' for negatives. */
  function Itoa(n: int): string
  {
    if n < 0 then "-" + Digits(-n) else Digits(n)
  }

  /** `Atoi` reads back every int64 written by `Itoa`. */
  lemma AtoiItoa(n: int)
    requires MinInt64 <= n <= MaxInt64
    ensures Atoi(Itoa(n)) == Success(n)
  {
    if n < 0 {
      assert SignAndRest(Itoa(n)) == (true, Digits(-n));
    } else {
      assert SignAndRest(Itoa(n)) == (false, Digits(n));
    }
  }

  /** `ParseFloat` reads an integer written by `Itoa` as that integer. */
  lemma ParseFloatItoa(n: int)
    ensures ParseFloat(Itoa(n)) == Success(n as real)
  {
    var m := if n < 0 then -n else n;
    var t := Digits(m);
    assert SignAndRest(Itoa(n)) == (n < 0, t);
    assert DigitRun(t) == |t| by { DigitRunAll(t); }
    assert t[..|t|] == t;
    assert t + "" == t;
  }

  lemma {:induction false} DigitRunAll(s: string)
    requires AllDigits(s)
    ensures DigitRun(s) == |s|
  {
    if s != [] {
      DigitRunAll(s[1..]);
    }
  }

  /** Decimal values of concatenated digit strings: the left part is shifted by the right part's length. */
  lemma {:induction false} DecimalValueConcat(a: string, b: string)
    requires AllDigits(a) && AllDigits(b)
    ensures AllDigits(a + b)
    ensures DecimalValue(a + b) == DecimalValue(a) * Pow10(|b|) + DecimalValue(b)
  {
    AllDigitsConcat(a, b);
    if b == [] {
      assert a + b == a;
    } else {
      var b' := b[..|b| - 1];
      assert (a + b)[..|a + b| - 1] == a + b';
      assert (a + b)[|a + b| - 1] == b[|b| - 1];
      assert AllDigits(b');
      DecimalValueConcat(a, b');
      ShiftStep(DecimalValue(a), Pow10(|b'|), DecimalValue(b'), DigitValue(b[|b| - 1]));
    }
  }

  /** One more digit on the right: the arithmetic step of `DecimalValueConcat`. */
  lemma ShiftStep(x: nat, q: nat, y: nat, last: nat)
    ensures 10 * (x * q + y) + last == x * (10 * q) + (10 * y + last)
  {
  }

  /** A number below 10^k has at most k digits. */
  lemma {:induction false} DigitsLength(n: nat, k: nat)
    requires k >= 1 && n < Pow10(k)
    ensures |Digits(n)| <= k
  {
    if n >= 10 {
      assert Pow10(k) == 10 * Pow10(k - 1);
      assert n / 10 < Pow10(k - 1);
      DigitsLength(n / 10, k - 1);
      assert |Digits(n)| == |Digits(n / 10)| + 1;
    }
  }

  /** `DigitRun` stops exactly where a run of digits meets a non-digit. */
  lemma {:induction false} DigitRunPrefix(a: string, b: string)
    requires AllDigits(a)
    requires b != [] && !IsDigit(b[0])
    ensures DigitRun(a + b) == |a|
  {
    if a != [] {
      assert (a + b)[1..] == a[1..] + b;
      DigitRunPrefix(a[1..], b);
    }
  }

  /** `width` characters at least: '0's in front of `s`. */
  function PadLeft(s: string, width: nat): (r: string)
  {
    if |s| >= width then s else seq(width - |s|, _ => '0') + s
  }

  function Abs(u: int): nat
  {
    if u < 0 then -u else u
  }

  /** Euclidean quotient and remainder of naturals. */
  function Quot(m: nat, p: nat): nat
    requires p >= 1
  {
    m / p
  }

  function Rem(m: nat, p: nat): (r: nat)
    requires p >= 1
    ensures r < p
  {
    m % p
  }

  lemma DivMod(m: nat, p: nat)
    requires p >= 1
    ensures m == Quot(m, p) * p + Rem(m, p)
  {
  }

  /** The integer digits of m / 10^d. */
  function IntDigits(m: nat, d: nat): string
  {
    Digits(Quot(m, Pow10(d)))
  }

  /** The d fraction digits of m / 10^d, zero-padded on the left. */
  function FracDigits(m: nat, d: nat): string
  {
    PadLeft(Digits(Rem(m, Pow10(d))), d)
  }

  /** The unsigned digits of m / 10^d: integer part, '.', and exactly d fraction digits. */
  function FixedDigits(m: nat, d: nat): string
    requires d >= 1
  {
    IntDigits(m, d) + "." + FracDigits(m, d)
  }

  /** Fixed-point text of u / 10^d with exactly d fraction digits, as "-12.000345". */
  function FormatFixed(u: int, d: nat): string
    requires d >= 1
  {
    (if u < 0 then "-" else "") + FixedDigits(Abs(u), d)
  }

  /** The mantissa of "digits.digits" is the two digit runs, with nothing after them. */
  lemma SplitMantissaPointed(ip: string, fp: string)
    requires AllDigits(ip) && AllDigits(fp)
    ensures SplitMantissa(ip + "." + fp) == (ip, fp, "")
  {
    var t := ip + "." + fp;
    assert t == ip + ("." + fp);
    DigitRunPrefix(ip, "." + fp);
    assert t[..|ip|] == ip;
    assert t[|ip| + 1..] == fp;
    DigitRunAll(fp);
    assert fp[..|fp|] == fp && fp[|fp|..] == "";
  }

  /** A literal whose mantissa has no exponent after it denotes the mantissa's digits shifted by the fraction's length. */
  lemma ParseFloatPlain(neg: bool, t: string, ip: string, fp: string)
    requires |t| >= 1 && IsDigit(t[0])
    requires SplitMantissa(t) == (ip, fp, "") && |fp| >= 1
    ensures AllDigits(ip + fp)
    ensures ParseFloat((if neg then "-" else "") + t)
         == Success(var v := (DecimalValue(ip + fp) as real) / (Pow10(|fp|) as real); if neg then -v else v)
  {
    AllDigitsConcat(ip, fp);
    var m := DecimalValue(ip + fp);
    var v := Scale(m, 0 - |fp|);
    assert v == (m as real) / (Pow10(|fp|) as real);
    assert Exponent("") == Some(0);
    if neg {
      assert ("-" + t)[1..] == t;
      assert SignAndRest("-" + t) == (true, t);
      assert ParseFloat("-" + t) == Success(-v);
    } else {
      assert "" + t == t;
      assert SignAndRest(t) == (false, t);
      assert ParseFloat(t) == Success(v);
    }
  }

  /** `ParseFloat` on "[-]digits.digits": the digits read as one number, shifted by the fraction's length. */
  lemma ParseFloatPointed(neg: bool, ip: string, fp: string)
    requires |ip| >= 1 && |fp| >= 1 && AllDigits(ip) && AllDigits(fp)
    ensures AllDigits(ip + fp)
    ensures ParseFloat((if neg then "-" else "") + (ip + "." + fp))
         == Success(var v := (DecimalValue(ip + fp) as real) / (Pow10(|fp|) as real); if neg then -v else v)
  {
    var t := ip + "." + fp;
    assert t[0] == ip[0];
    SplitMantissaPointed(ip, fp);
    ParseFloatPlain(neg, t, ip, fp);
  }

  /** Padding with zeros to a width the digits fit in keeps their value and makes the width exact. */
  lemma PadLeftValue(s: string, width: nat)
    requires AllDigits(s) && |s| <= width
    ensures |PadLeft(s, width)| == width && AllDigits(PadLeft(s, width))
    ensures DecimalValue(PadLeft(s, width)) == DecimalValue(s)
  {
    if |s| < width {
      var zeros := seq(width - |s|, _ => '0');
      ZerosValue(width - |s|);
      DecimalValueConcat(zeros, s);
    }
  }

  /** An integer part followed by d padded fraction digits reads as one number q * 10^d + r. */
  lemma JoinedValue(q: nat, r: nat, d: nat)
    requires d >= 1 && r < Pow10(d)
    ensures |PadLeft(Digits(r), d)| == d
    ensures AllDigits(Digits(q) + PadLeft(Digits(r), d))
    ensures DecimalValue(Digits(q) + PadLeft(Digits(r), d)) == q * Pow10(d) + r
  {
    DigitsLength(r, d);
    PadLeftValue(Digits(r), d);
    DecimalValueConcat(Digits(q), PadLeft(Digits(r), d));
  }

  /** The digits of `FixedDigits(m, d)`, read as one number, are m. */
  lemma FixedDigitsValue(m: nat, d: nat)
    requires d >= 1
    ensures |FracDigits(m, d)| == d
    ensures AllDigits(IntDigits(m, d) + FracDigits(m, d))
    ensures DecimalValue(IntDigits(m, d) + FracDigits(m, d)) == m
  {
    DivMod(m, Pow10(d));
    JoinedValue(Quot(m, Pow10(d)), Rem(m, Pow10(d)), d);
  }


  /** Fixed-point text is an optional '-', integer digits, '.', and d fraction digits that together read as |u|. */
  lemma FixedShape(u: int, d: nat)
    requires d >= 1
    ensures var ip, fp := IntDigits(Abs(u), d), FracDigits(Abs(u), d);
      && FormatFixed(u, d) == (if u < 0 then "-" else "") + (ip + "." + fp)
      && |ip| >= 1 && |fp| == d && AllDigits(ip) && AllDigits(fp)
      && AllDigits(ip + fp) && DecimalValue(ip + fp) == Abs(u)
  {
    var m := Abs(u);
    var ip, fp := IntDigits(m, d), FracDigits(m, d);
    FixedDigitsValue(m, d);
    assert AllDigits(fp) by {
      forall k | 0 <= k < |fp| ensures IsDigit(fp[k]) { assert fp[k] == (ip + fp)[|ip| + k]; }
    }
  }

  /** `ParseFloat` reads fixed-point text back as the exact quotient. */
  lemma ParseFloatFixed(u: int, d: nat)
    requires d >= 1
    ensures ParseFloat(FormatFixed(u, d)) == Success((u as real) / (Pow10(d) as real))
  {
    var m := Abs(u);
    var ip, fp := IntDigits(m, d), FracDigits(m, d);
    FixedShape(u, d);
    ParseFloatPointed(u < 0, ip, fp);
    if u < 0 {
      NegQuotient(m as real, Pow10(d) as real);
    }
  }

  lemma NegQuotient(a: real, p: real)
    requires p > 0.0
    ensures -(a / p) == (-a) / p
  {
  }

  lemma {:induction false} ZerosValue(k: nat)
    ensures AllDigits(seq(k, _ => '0'))
    ensures DecimalValue(seq(k, _ => '0')) == 0
  {
    if k > 0 {
      assert seq(k, _ => '0')[..k - 1] == seq(k - 1, _ => '0');
      ZerosValue(k - 1);
    }
  }
}
