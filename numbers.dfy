/** Coordinate arithmetic of the outline normaliser (src/basic.rs):
    reading a coordinate string as Rust's `f64` parser does, `round_to_even`
    and `is_even`. Numbers are exact reals; the sign of a parsed float is kept
    apart from its magnitude so that a negative zero ("-0") is visible. */
module Numbers {
  import opened Wrappers

  /** A parsed `f64`: a finite value (sign and magnitude), an infinity, or NaN. */
  datatype Float = Finite(negative: bool, magnitude: real) | Infinite(negative: bool) | NaN
  {
    /** The real number a finite float stands for. */
    function Value(): real
      requires Finite?
    {
      if negative then -magnitude else magnitude
    }
  }

  const I64Max: int := 0x7FFF_FFFF_FFFF_FFFF
  const I64Min: int := -0x8000_0000_0000_0000

  predicate IsDigit(c: char) { '0' <= c <= '9' }

  predicate AllDigits(s: string) { forall k :: 0 <= k < |s| ==> IsDigit(s[k]) }

  function DigitValue(c: char): nat
    requires IsDigit(c)
  {
    c as int - '0' as int
  }

  /** The natural number a run of decimal digits denotes, most significant first. */
  function DigitsValue(s: string): nat
    requires AllDigits(s)
    decreases |s|
  {
    if s == [] then 0 else 10 * DigitsValue(s[..|s| - 1]) + DigitValue(s[|s| - 1])
  }

  /** `m` times ten to the power `e`, for an exponent of either sign. */
  function Scale(m: real, e: int): real
    decreases if e < 0 then -e else e
  {
    if e == 0 then m else if e > 0 then 10.0 * Scale(m, e - 1) else Scale(m, e + 1) / 10.0
  }

  /** The index of the first `a` or `b` in `s`, or `|s|` when there is none. */
  function FindEither(s: string, a: char, b: char): (i: nat)
    ensures i <= |s|
    ensures forall k :: 0 <= k < i ==> s[k] != a && s[k] != b
    ensures i < |s| ==> s[i] == a || s[i] == b
  {
    if s == [] then 0
    else if s[0] == a || s[0] == b then 0
    else 1 + FindEither(s[1..], a, b)
  }

  function LowerChar(c: char): char
  {
    if 'A' <= c <= 'Z' then (c as int + 32) as char else c
  }

  /** ASCII lower-casing, as the parser uses to recognise "inf", "infinity" and "nan". */
  function AsciiLower(s: string): string
  {
    if s == [] then [] else [LowerChar(s[0])] + AsciiLower(s[1..])
  }

  /** The mantissa `digits[.digits]` or `.digits`: at least one digit in all. */
  function ParseMantissa(m: string): Option<real>
  {
    // The first '.' (or |m| when there is none): the two-character search given one character twice.
    var dot := FindEither(m, '.', '.');
    var whole := m[..dot];
    var frac := if dot < |m| then m[dot + 1..] else [];
    if AllDigits(whole) && AllDigits(frac) && |whole| + |frac| > 0
    then Some(DigitsValue(whole) as real + FractionValue(frac))
    else None
  }

  /** The value of the digits after a decimal point: "25" stands for 0.25. */
  function FractionValue(frac: string): real
    requires AllDigits(frac)
  {
    if frac == [] then 0.0 else (DigitValue(frac[0]) as real + FractionValue(frac[1..])) / 10.0
  }

  /** The exponent after `e` or `E`: an optional sign and at least one digit. */
  function ParseExponent(x: string): Option<int>
  {
    var negative := |x| > 0 && x[0] == '-';
    var digits := if |x| > 0 && (x[0] == '+' || x[0] == '-') then x[1..] else x;
    if |digits| > 0 && AllDigits(digits)
    then var n: int := DigitsValue(digits); Some(if negative then -n else n)
    else None
  }

  /** An unsigned decimal number with an optional exponent. */
  function ParseMagnitude(body: string): Option<real>
  {
    var e := FindEither(body, 'e', 'E');
    match ParseMantissa(body[..e])
    case None => None
    case Some(mantissa) =>
      if e == |body| then Some(mantissa)
      else match ParseExponent(body[e + 1..])
        case None => None
        case Some(x) => Some(Scale(mantissa, x))
  }

  /** `value.parse::<f64>()`: an optional sign, then "inf", "infinity" or "nan"
      in any case, or a decimal number; anything else is a parse error (None). */
  function ParseFloat(s: string): Option<Float>
  {
    var negative := |s| > 0 && s[0] == '-';
    var body := Unsigned(s);
    var word := AsciiLower(body);
    if IsInfinityWord(word) then Some(Infinite(negative))
    else if word == "nan" then Some(NaN)
    else match ParseMagnitude(body)
      case None => None
      case Some(m) => Some(Finite(negative, m))
  }

  /** What follows an optional leading sign. */
  function Unsigned(s: string): string
  {
    if |s| > 0 && (s[0] == '-' || s[0] == '+') then s[1..] else s
  }

  predicate IsInfinityWord(word: string)
  {
    word == "inf" || word == "infinity"
  }

  /** Rust's `f64::round`: the nearest integer, half-way cases away from zero. */
  function RoundHalfAway(x: real): int
  {
    if x >= 0.0 then (x + 0.5).Floor else -((0.5 - x).Floor)
  }

  /** The arithmetic of `round_to_even`: `round(v / 2) * 2`. */
  function EvenRound(v: real): int
  {
    2 * RoundHalfAway(v / 2.0)
  }

  predicate IsEvenInteger(x: real)
  {
    x == x.Floor as real && x.Floor % 2 == 0
  }

  function DigitChar(d: nat): char
    requires d < 10
  {
    ('0' as int + d) as char
  }

  /** The decimal digits of `n`, without leading zeros. */
  function NatToString(n: nat): (s: string)
    ensures |s| > 0 && AllDigits(s)
  {
    if n < 10 then [DigitChar(n)] else NatToString(n / 10) + [DigitChar(n % 10)]
  }

  /** How `f64::to_string` writes a float whose value is the integer `n`:
      without a fraction or an exponent. Here every digit is exact; Rust
      prints the shortest digits that read back as the same `f64`, padded
      with zeros, which differs for integers beyond 2^53. */
  function IntToString(n: int): string
  {
    if n < 0 then "-" + NatToString(-n) else NatToString(n)
  }

  /** `round_to_even`: the text written back for one coordinate. An unparsable
      value reads as 0.0; infinities and NaN go through `round` unchanged; a
      negative input that rounds to zero keeps its sign and prints as "-0". */
  function RoundToEven(value: string): string
  {
    RoundedText(ParseFloat(value))
  }

  /** The text `f64::to_string` prints for `round(v / 2) * 2`, given how the
      input parsed (a parse error reads as 0.0). */
  function RoundedText(parsed: Option<Float>): string
  {
    match parsed
    case None => "0"
    case Some(NaN) => "NaN"
    case Some(Infinite(negative)) => if negative then "-inf" else "inf"
    case Some(f) =>
      var n := EvenRound(f.Value());
      if n == 0 && f.negative then "-0" else IntToString(n)
  }

  /** `is_even`, with the evidently intended integer test: the value parses to a
      finite number with no fractional part whose integer value is even. */
  predicate IsEven(value: string)
  {
    var p := ParseFloat(value);
    p.Some? && p.value.Finite? && IsEvenInteger(p.value.Value())
  }

  /** Rust's saturating `f64 as i64` on an integral value. */
  function SaturateI64(n: int): int
  {
    if n > I64Max then I64Max else if n < I64Min then I64Min else n
  }

  /** `is_even` as written: `v.fract() == 0.0 && v as i64 % 2 == 0`, where the
      cast saturates at the bounds of `i64`. */
  predicate IsEvenAsWritten(value: string)
  {
    var p := ParseFloat(value);
    p.Some? && p.value.Finite? && p.value.Value() == p.value.Value().Floor as real
    && SaturateI64(p.value.Value().Floor) % 2 == 0
  }

  /** Which evenness test a check applies: `is_even` as the code writes it, or
      the evidently intended one. */
  datatype EvenTest = AsWritten | Intended

  predicate IsEvenUnder(test: EvenTest, value: string)
  {
    match test
    case AsWritten => IsEvenAsWritten(value)
    case Intended => IsEven(value)
  }

  /** A coordinate that `round_to_even` writes back as an integer which the
      cast in `is_even` holds exactly: it does not parse (and becomes 0), or it
      is finite and strictly inside the range of `i64`. */
  predicate FitsI64(value: string)
  {
    var p := ParseFloat(value);
    p.None? || (p.value.Finite? && -(I64Max as real) < p.value.Value() < I64Max as real)
  }

  /** A value that parses to an infinity or NaN. */
  predicate NonFinite(value: string)
  {
    ParseFloat(value).Some? && !ParseFloat(value).value.Finite?
  }

  // ---------------------------------------------------------------------------
  // Reading back what `round_to_even` writes

  lemma {:induction false} NatToStringValue(n: nat)
    ensures DigitsValue(NatToString(n)) == n
  {
    if n >= 10 {
      var s := NatToString(n);
      assert s[..|s| - 1] == NatToString(n / 10);
      NatToStringValue(n / 10);
    }
  }

  lemma {:induction false} LowerDigits(s: string)
    requires AllDigits(s)
    ensures AsciiLower(s) == s
  {
    if s != [] {
      LowerDigits(s[1..]);
    }
  }

  lemma MantissaOfDigits(digits: string)
    requires |digits| > 0 && AllDigits(digits)
    ensures ParseMantissa(digits) == Some(DigitsValue(digits) as real)
  {
    var dot := FindEither(digits, '.', '.');
    assert dot < |digits| ==> IsDigit(digits[dot]);
    assert digits[..dot] == digits;
  }

  lemma MagnitudeOfDigits(digits: string)
    requires |digits| > 0 && AllDigits(digits)
    ensures ParseMagnitude(digits) == Some(DigitsValue(digits) as real)
  {
    var e := FindEither(digits, 'e', 'E');
    assert e < |digits| ==> IsDigit(digits[e]);
    assert digits[..e] == digits;
    MantissaOfDigits(digits);
  }

  lemma DigitsNotWords(digits: string)
    requires |digits| > 0 && AllDigits(digits)
    ensures !IsInfinityWord(AsciiLower(digits)) && AsciiLower(digits) != "nan"
  {
    LowerDigits(digits);
    assert "inf"[0] == 'i' && "infinity"[0] == 'i' && "nan"[0] == 'n';
  }

  /** A run of digits with an optional minus sign parses to a finite float. */
  lemma ParseSignedDigits(negative: bool, digits: string)
    requires |digits| > 0 && AllDigits(digits)
    ensures ParseFloat((if negative then "-" else "") + digits)
         == Some(Finite(negative, DigitsValue(digits) as real))
  {
    var s := (if negative then "-" else "") + digits;
    assert Unsigned(s) == digits by {
      if !negative { assert s == digits && IsDigit(s[0]); }
    }
    assert (|s| > 0 && s[0] == '-') == negative by {
      if !negative { assert IsDigit(s[0]); }
    }
    DigitsNotWords(digits);
    MagnitudeOfDigits(digits);
  }

  /** The integer text written by `round_to_even` reads back as that integer. */
  lemma ParseIntToString(n: int)
    ensures ParseFloat(IntToString(n)) == Some(Finite(n < 0, (if n < 0 then -n else n) as real))
  {
    if n < 0 {
      ParseSignedDigits(true, NatToString(-n));
      NatToStringValue(-n);
    } else {
      assert IntToString(n) == "" + NatToString(n);
      ParseSignedDigits(false, NatToString(n));
      NatToStringValue(n);
    }
  }

  lemma ParseMinusZero()
    ensures ParseFloat("-0") == Some(Finite(true, 0.0))
  {
    assert "-0" == "-" + NatToString(0);
    ParseSignedDigits(true, NatToString(0));
    NatToStringValue(0);
  }

  // ---------------------------------------------------------------------------
  // The arithmetic of round(v / 2) * 2

  /** The result is even and no further than 1 from the input. */
  lemma EvenRoundClose(v: real)
    ensures EvenRound(v) % 2 == 0
    ensures -1.0 <= EvenRound(v) as real - v <= 1.0
  {
    var x := v / 2.0;
    var r := RoundHalfAway(x);
    assert -0.5 <= r as real - x <= 0.5;
  }

  /** An even integer is kept; an odd one moves one step away from zero. */
  lemma EvenRoundInteger(n: int)
    ensures EvenRound(n as real) == if n % 2 == 0 then n else if n > 0 then n + 1 else n - 1
  {
    var x := n as real / 2.0;
    if n % 2 == 0 {
      assert x == (n / 2) as real;
    } else {
      assert x == (n / 2) as real + 0.5;
      if n > 0 {
        assert RoundHalfAway(x) == n / 2 + 1;
      } else {
        assert 0.5 - x == (-(n / 2)) as real;
        assert RoundHalfAway(x) == n / 2;
      }
    }
  }

  // ---------------------------------------------------------------------------
  // What `round_to_even` promises

  /** An unparsable value is written back as "0", which is even. */
  lemma RoundToEvenUnparsable(value: string)
    requires ParseFloat(value).None?
    ensures RoundToEven(value) == "0" && IsEven(RoundToEven(value))
  {
    ParseIntToString(0);
  }

  /** The text printed for the rounded integer `n` reads back as `n`, keeping
      the sign of a negative input that rounded to zero. */
  lemma ParsePrintedInteger(n: int, negative: bool)
    ensures ParseFloat(if n == 0 && negative then "-0" else IntToString(n))
              == Some(Finite(n < 0 || (n == 0 && negative), (if n < 0 then -n else n) as real))
  {
    if n == 0 && negative {
      ParseMinusZero();
    } else {
      ParseIntToString(n);
    }
  }

  lemma ParseRoundedFinite(f: Float)
    requires f.Finite?
    ensures var n := EvenRound(f.Value());
            ParseFloat(RoundedText(Some(f)))
              == Some(Finite(n < 0 || (n == 0 && f.negative), (if n < 0 then -n else n) as real))
  {
    var n := EvenRound(f.Value());
    assert RoundedText(Some(f)) == if n == 0 && f.negative then "-0" else IntToString(n);
    ParsePrintedInteger(n, f.negative);
  }

  /** A finite value is written back as an even integer at most 1 away from it. */
  lemma RoundToEvenFinite(value: string)
    requires ParseFloat(value).Some? && ParseFloat(value).value.Finite?
    ensures var r := ParseFloat(RoundToEven(value));
            && r.Some? && r.value.Finite?
            && IsEvenInteger(r.value.Value())
            && -1.0 <= r.value.Value() - ParseFloat(value).value.Value() <= 1.0
  {
    var f := ParseFloat(value).value;
    var n := EvenRound(f.Value());
    ParseRoundedFinite(f);
    EvenRoundClose(f.Value());
    var g := Finite(n < 0 || (n == 0 && f.negative), (if n < 0 then -n else n) as real);
    assert g.Value() == n as real;
    assert (n as real).Floor == n;
  }

  /** Every finite or unparsable value is written back as text that `is_even` accepts. */
  lemma RoundToEvenIsEven(value: string)
    requires !NonFinite(value)
    ensures IsEven(RoundToEven(value))
  {
    if ParseFloat(value).None? {
      RoundToEvenUnparsable(value);
    } else {
      RoundToEvenFinite(value);
    }
  }

  /** An integer coordinate: an even one is written back unchanged, an odd one
      one step away from zero. */
  lemma RoundToEvenOfInteger(n: int)
    ensures RoundToEven(IntToString(n))
         == IntToString(if n % 2 == 0 then n else if n > 0 then n + 1 else n - 1)
  {
    ParseIntToString(n);
    EvenRoundInteger(n);
    assert (if n < 0 then -((-n) as real) else n as real) == n as real;
  }

  lemma ParseNaN()
    ensures ParseFloat("NaN") == Some(NaN)
  {
    assert AsciiLower("NaN") == "nan" by {
      assert AsciiLower("N") == "n";
      assert "NaN" == "N" + "aN" && "aN"[1..] == "N";
    }
  }

  lemma ParseInf(negative: bool)
    ensures ParseFloat(if negative then "-inf" else "inf") == Some(Infinite(negative))
  {
    assert AsciiLower("inf") == "inf" by {
      assert "inf"[1..] == "nf" && "nf"[1..] == "f";
    }
    assert negative ==> "-inf"[1..] == "inf";
  }

  /** Infinities and NaN survive rounding and are never reported even. */
  lemma RoundToEvenNonFinite(value: string)
    requires NonFinite(value)
    ensures NonFinite(RoundToEven(value)) && !IsEven(RoundToEven(value))
  {
    match ParseFloat(value).value
    case NaN => ParseNaN();
    case Infinite(negative) => ParseInf(negative);
  }

  /** The text printed for an even integer is rounded to itself. */
  lemma EvenTextStable(n: int)
    requires n % 2 == 0
    ensures RoundToEven(IntToString(n)) == IntToString(n)
  {
    RoundToEvenOfInteger(n);
  }

  /** "-0" is rounded to itself. */
  lemma MinusZeroStable()
    ensures RoundToEven("-0") == "-0"
  {
    ParseMinusZero();
    assert EvenRound(-0.0) == 0;
  }

  /** The texts printed for NaN and the infinities are rounded to themselves. */
  lemma NonFiniteTextStable(f: Float)
    requires !f.Finite?
    ensures RoundToEven(RoundedText(Some(f))) == RoundedText(Some(f))
  {
    match f
    case NaN => ParseNaN();
    case Infinite(negative) => ParseInf(negative);
  }

  /** Whatever a value parsed as, the text it is written back as rounds to itself. */
  lemma RoundedTextStable(p: Option<Float>)
    ensures RoundToEven(RoundedText(p)) == RoundedText(p)
  {
    if p.None? {
      assert RoundedText(p) == IntToString(0);
      EvenTextStable(0);
    } else if !p.value.Finite? {
      NonFiniteTextStable(p.value);
    } else {
      var v := p.value.Value();
      var n := EvenRound(v);
      EvenRoundClose(v);
      if n == 0 && p.value.negative {
        assert RoundedText(p) == "-0";
        MinusZeroStable();
      } else {
        assert RoundedText(p) == IntToString(n);
        EvenTextStable(n);
      }
    }
  }

  /** Rounding an already rounded value changes nothing. */
  lemma RoundToEvenIdempotent(value: string)
    ensures RoundToEven(RoundToEven(value)) == RoundToEven(value)
  {
    RoundedTextStable(ParseFloat(value));
  }

  /** An integer within 1 of a real strictly inside (-m, m) lies in [-m, m]. */
  lemma IntegerNear(n: int, v: real, m: int)
    requires -(m as real) < v < m as real
    requires -1.0 <= n as real - v <= 1.0
    ensures -m <= n <= m
  {
  }

  /** A coordinate that fits `i64` is written back as text that passes the
      as-written test as well as the intended one. */
  lemma RoundToEvenFitsAsWritten(value: string)
    requires FitsI64(value)
    ensures IsEvenAsWritten(RoundToEven(value)) && IsEven(RoundToEven(value))
  {
    RoundToEvenIsEven(value);
    if ParseFloat(value).None? {
      RoundToEvenUnparsable(value);
      ZeroAsWritten();
    } else {
      RoundToEvenFiniteFits(value);
    }
  }

  lemma ZeroAsWritten()
    ensures IsEvenAsWritten("0")
  {
    ParseIntToString(0);
    assert IntToString(0) == "0";
  }

  lemma RoundToEvenFiniteFits(value: string)
    requires ParseFloat(value).Some? && ParseFloat(value).value.Finite?
    requires -(I64Max as real) < ParseFloat(value).value.Value() < I64Max as real
    ensures IsEvenAsWritten(RoundToEven(value))
  {
    RoundedTextFits(ParseFloat(value).value);
  }

  lemma RoundedTextFits(f: Float)
    requires f.Finite? && -(I64Max as real) < f.Value() < I64Max as real
    ensures IsEvenAsWritten(RoundedText(Some(f)))
  {
    var n := EvenRound(f.Value());
    ParseRoundedFinite(f);
    EvenRoundClose(f.Value());
    IntegerNear(n, f.Value(), I64Max);
    var g := Finite(n < 0 || (n == 0 && f.negative), (if n < 0 then -n else n) as real);
    assert g.Value() == n as real;
    assert (n as real).Floor == n;
    assert SaturateI64(n) == n;
  }

  // ---------------------------------------------------------------------------
  // Finding: the saturating cast in `is_even`

  /** Every even integer above the largest `i64` (2^63 is the first) keeps its
      value through `round_to_even` and is even, yet the as-written `is_even`
      calls it odd: `v as i64` saturates to 2^63 - 1. */
  lemma IsEvenAsWrittenRejectsHugeEven(n: nat)
    requires n > I64Max && n % 2 == 0
    ensures var s := IntToString(n);
            RoundToEven(s) == s && IsEven(s) && !IsEvenAsWritten(s)
  {
    var s := IntToString(n);
    RoundToEvenOfInteger(n);
    assert RoundToEven(s) == s;
    ParseIntToString(n);
    assert ParseFloat(s) == Some(Finite(false, n as real));
    assert (n as real).Floor == n;
    assert IsEven(s);
    assert SaturateI64(n) == I64Max;
  }
}
