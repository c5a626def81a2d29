/** ParseBoundedDecimalField: tests on digit strings against a bound on numbers. */
module BoundedDecimal {
  import opened Text

  /** The number `units` / 10^`places`, as decimal.NewFromString holds it. */
  datatype Decimal = Decimal(units: int, places: nat)

  datatype Result = Ok(value: Decimal) | Invalid | OutOfRange

  const ZERO := Decimal(0, 0)

  function Pow10(n: nat): (p: nat)
    ensures p >= 1
  {
    if n == 0 then 1 else 10 * Pow10(n - 1)
  }

  // --------------------------------------------------------------- the parser

  predicate Signed(s: string) { s != "" && (s[0] == '+' || s[0] == '-') }

  function Unsigned(s: string): string { TrimPrefix(TrimPrefix(s, "+"), "-") }

  /** The text before the first point, and the text after it if there is one. */
  function SplitPoint(s: string): (parts: (string, Option<string>))
    ensures '.' !in parts.0
    ensures s == parts.0 + if parts.1.Some? then ['.'] + parts.1.value else ""
  {
    if s == "" then ("", None)
    else if s[0] == '.' then ("", Some(s[1..]))
    else
      var rest := SplitPoint(s[1..]);
      assert s == [s[0]] + s[1..];
      ([s[0]] + rest.0, rest.1)
  }

  predicate Number(s: string) { s != "" && AllDigits(s) }

  /** ^[+-]?\d+(?:\.\d+)?$ */
  predicate WellFormed(s: string) {
    var parts := SplitPoint(if Signed(s) then s[1..] else s);
    Number(parts.0) && (parts.1.Some? ==> Number(parts.1.value))
  }

  function TrimZeros(s: string): string {
    if s != "" && s[0] == '0' then TrimZeros(s[1..]) else s
  }

  function IntegerDigits(s: string): string
  {
    SplitPoint(Unsigned(s)).0
  }

  function FractionDigits(s: string): string {
    var f := SplitPoint(Unsigned(s)).1;
    if f.None? then "" else f.value
  }

  /** decimal.NewFromString on a well-formed text. */
  function Exact(s: string): Decimal
    requires WellFormed(s)
  {
    WellFormedParts(s);
    var n: int := Value(IntegerDigits(s) + FractionDigits(s));
    Decimal(if s[0] == '-' then -n else n, |FractionDigits(s)|)
  }

  function ParseBoundedDecimalField(value: string, integerDigits: int, scale: int): Result {
    var s := TrimSpace(value);
    if s == "" then Ok(ZERO)
    else if integerDigits < 1 || scale < 0 || !WellFormed(s) then Invalid
    else
      var trimmed := TrimZeros(IntegerDigits(s));
      var integerPart := if trimmed == "" then "0" else trimmed;
      if |integerPart| > integerDigits || |FractionDigits(s)| > scale then OutOfRange else Ok(Exact(s))
  }

  lemma {:induction false} WellFormedParts(s: string)
    requires WellFormed(s)
    ensures s != "" && Unsigned(s) == (if Signed(s) then s[1..] else s)
    ensures Number(IntegerDigits(s)) && AllDigits(FractionDigits(s)) && AllDigits(IntegerDigits(s) + FractionDigits(s))
  {
    var u := if Signed(s) then s[1..] else s;
    var parts := SplitPoint(u);
    assert u[0] == parts.0[0] && IsDigit(u[0]);
  }

  // ----------------------------------------------------- digit strings and numbers

  lemma {:induction false} PowSum(a: nat, b: nat)
    ensures Pow10(a + b) == Pow10(a) * Pow10(b)
  {
    if a > 0 {
      PowSum(a - 1, b);
      assert Pow10(a + b) == 10 * Pow10(a - 1 + b);
      TimesTen(Pow10(b), Pow10(a - 1));
    }
  }

  lemma {:induction false} PowMonotone(a: nat, b: nat)
    requires a <= b
    ensures Pow10(a) <= Pow10(b)
  {
    if a < b {
      PowMonotone(a, b - 1);
    }
  }

  lemma {:induction false} ValueOfConcat(a: string, b: string)
    requires AllDigits(a) && AllDigits(b)
    ensures AllDigits(a + b) && Value(a + b) == Value(a) * Pow10(|b|) + Value(b)
  {
    if b == "" {
      assert a + b == a;
    } else {
      var c, d := b[..|b| - 1], DigitValue(b[|b| - 1]);
      ValueOfConcat(a, c);
      assert (a + b)[..|a + b| - 1] == a + c && (a + b)[|a + b| - 1] == b[|b| - 1];
      assert Value(a + b) == 10 * Value(a + c) + d;
      assert Value(b) == 10 * Value(c) + d && Pow10(|b|) == 10 * Pow10(|c|);
      TimesTen(Value(a), Pow10(|c|));
    }
  }

  lemma {:induction false} TimesTen(a: nat, p: nat)
    ensures 10 * (a * p) == a * (10 * p)
  {
  }

  lemma {:induction false} ValueBelowPower(s: string)
    requires AllDigits(s)
    ensures Value(s) < Pow10(|s|)
  {
    if s != "" {
      ValueBelowPower(s[..|s| - 1]);
    }
  }

  lemma {:induction false} ValueAbovePower(s: string)
    requires AllDigits(s) && s != "" && s[0] != '0'
    ensures Value(s) >= Pow10(|s| - 1)
  {
    if |s| > 1 {
      ValueAbovePower(s[..|s| - 1]);
    } else {
      assert s[..0] == "";
    }
  }

  lemma {:induction false} ZerosAddNothing(s: string)
    requires AllDigits(s)
    ensures AllDigits(TrimZeros(s)) && Value(TrimZeros(s)) == Value(s)
    ensures TrimZeros(s) != "" ==> TrimZeros(s)[0] != '0'
  {
    if s != "" && s[0] == '0' {
      ZerosAddNothing(s[1..]);
      assert s == "0" + s[1..];
      ValueOfConcat("0", s[1..]);
      ZeroValue();
    }
  }

  lemma {:induction false} ZeroValue()
    ensures Value("0") == 0
  {
    assert "0"[..0] == "";
  }

  /** At most `n` digits once leading zeros are gone is the same as being below 10^n. */
  lemma {:induction false} DigitCountIsBound(s: string, n: nat)
    requires AllDigits(s) && n >= 1
    ensures |TrimZeros(s)| <= n <==> Value(s) < Pow10(n)
  {
    ZerosAddNothing(s);
    var t := TrimZeros(s);
    ValueBelowPower(t);
    if |t| <= n {
      PowMonotone(|t|, n);
    } else {
      ValueAbovePower(t);
      PowMonotone(n, |t| - 1);
    }
  }

  lemma {:induction false} MulMonotone(a: nat, b: nat, p: nat)
    requires a <= b
    ensures a * p <= b * p
  {
    if a < b {
      MulMonotone(a, b - 1, p);
      MulStep(b - 1, p);
    }
  }

  lemma {:induction false} MulStep(a: nat, p: nat)
    ensures (a + 1) * p == a * p + p
  {
  }

  lemma {:induction false} ScaledComparison(a: nat, b: nat, p: nat, r: nat)
    requires r < p
    ensures a < b <==> a * p + r < b * p
  {
    if a < b {
      MulStep(a, p);
      MulMonotone(a + 1, b, p);
    } else {
      MulMonotone(b, a, p);
    }
  }

  lemma {:induction false} BoundIgnoresFraction(i: string, f: string, n: nat)
    requires AllDigits(i) && AllDigits(f)
    ensures AllDigits(i + f) && (Value(i) < Pow10(n) <==> Value(i + f) < Pow10(n + |f|))
  {
    hide Pow10, Value;
    ValueOfConcat(i, f);
    ValueBelowPower(f);
    PowSum(n, |f|);
    ScaledComparison(Value(i), Pow10(n), Pow10(|f|), Value(f));
  }

  // --------------------------------------------------------------- the main result

  /** The integer N with value N / 10^scale. */
  function Scaled(d: Decimal, scale: nat): int
    requires d.places <= scale
  {
    d.units * Pow10(scale - d.places)
  }

  function Magnitude(n: int): nat { if n < 0 then -n else n }

  predicate Fits(d: Decimal, integerDigits: int, scale: int) {
    integerDigits >= 1 && 0 <= d.places <= scale && Magnitude(Scaled(d, scale)) < Pow10(integerDigits + scale)
  }

  lemma {:induction false} ScalingKeepsBound(d: Decimal, n: nat, scale: nat)
    requires d.places <= scale
    ensures Magnitude(d.units) < Pow10(n + d.places) <==> Magnitude(Scaled(d, scale)) < Pow10(n + scale)
  {
    hide Pow10;
    var p := Pow10(scale - d.places);
    PowSum(n + d.places, scale - d.places);
    MagnitudeScales(d.units, p);
    ScaledComparison(Magnitude(d.units), Pow10(n + d.places), p, 0);
  }

  lemma {:induction false} MagnitudeScales(n: int, p: nat)
    ensures Magnitude(n * p) == Magnitude(n) * p
  {
    if n < 0 {
      assert (-n) * p == -(n * p);
    }
  }

  /** A non-empty text is accepted exactly when it is well formed, has at most `scale` fraction
      digits, and its exact value is N / 10^scale with |N| < 10^(integerDigits + scale). */
  lemma {:induction false} AcceptanceIsNumeric(value: string, integerDigits: int, scale: int)
    requires TrimSpace(value) != ""
    ensures var s, r := TrimSpace(value), ParseBoundedDecimalField(value, integerDigits, scale);
            && (r.Ok? <==> WellFormed(s) && Fits(Exact(s), integerDigits, scale))
            && (r.Ok? ==> r.value == Exact(s))
            && (r == OutOfRange ==> WellFormed(s) && !Fits(Exact(s), integerDigits, scale))
  {
    hide TrimSpace, TrimZeros, WellFormed, IntegerDigits, FractionDigits;
    var s := TrimSpace(value);
    if WellFormed(s) && integerDigits >= 1 && scale >= 0 {
      WellFormedParts(s);
      var i, f := IntegerDigits(s), FractionDigits(s);
      DigitCountIsBound(i, integerDigits);
      BoundIgnoresFraction(i, f, integerDigits);
      if |f| <= scale {
        ScalingKeepsBound(Exact(s), integerDigits, scale);
      }
    }
  }

  lemma {:induction false} EmptyIsZero(value: string, integerDigits: int, scale: int)
    requires AllSpaces(value)
    ensures ParseBoundedDecimalField(value, integerDigits, scale) == Ok(Decimal(0, 0))
  {
    TrimSpaceCuts(value);
  }

  // ------------------------------------------------------------------- round trip

  function Zeros(n: nat): (s: string)
    ensures |s| == n && AllDigits(s)
  {
    if n == 0 then "" else "0" + Zeros(n - 1)
  }

  lemma {:induction false} ZerosValue(n: nat)
    ensures Value(Zeros(n)) == 0
  {
    if n > 0 {
      ZerosValue(n - 1);
      ZeroValue();
      ValueOfConcat("0", Zeros(n - 1));
    }
  }

  lemma {:induction false} PaddedValue(n: nat, width: nat)
    requires n < Pow10(width)
    ensures Value(Padded(n, width)) == n
  {
    hide Padded;
    PaddedParts(n, width);
    if width > 0 {
      assert Pow10(width) == 10 * Pow10(width - 1);
      TenthBelow(n, Pow10(width - 1));
      PaddedValue(n / 10, width - 1);
    }
  }

  lemma {:induction false} PaddedParts(n: nat, width: nat)
    ensures width == 0 ==> Value(Padded(n, width)) == 0
    ensures width > 0 ==> Value(Padded(n, width)) == 10 * Value(Padded(n / 10, width - 1)) + n % 10
  {
    if width > 0 {
      assert Padded(n, width)[..width - 1] == Padded(n / 10, width - 1);
    }
  }

  lemma {:induction false} TenthBelow(n: nat, p: nat)
    requires n < 10 * p
    ensures n / 10 < p && n == 10 * (n / 10) + n % 10
  {
  }

  function DivMod(m: nat, p: nat): (r: (nat, nat))
    requires p >= 1
    ensures r.0 * p + r.1 == m && r.1 < p
  {
    (m / p, m % p)
  }

  /** A plain text for N / 10^scale: any number of leading zeros, all fraction digits written. */
  function Print(n: int, scale: nat, zeros: nat): string {
    var (whole, part) := DivMod(Magnitude(n), Pow10(scale));
    (if n < 0 then "-" else "") + ((Zeros(zeros) + Digits(whole)) + if scale == 0 then "" else ['.'] + Padded(part, scale))
  }

  lemma {:induction false} DigitsThenPoint(i: string, f: Option<string>)
    requires AllDigits(i)
    ensures SplitPoint(i + Tail(f)) == (i, f)
  {
    var tail := Tail(f);
    if i == "" {
      assert i + tail == tail;
      if f.Some? {
        assert tail[1..] == f.value;
      }
    } else {
      assert (i + tail)[0] == i[0] && (i + tail)[1..] == i[1..] + tail;
      DigitsThenPoint(i[1..], f);
      assert i == [i[0]] + i[1..];
    }
  }

  function Tail(f: Option<string>): string { if f.Some? then ['.'] + f.value else "" }

  predicate IsSign(sign: string) { sign == "" || sign == "+" || sign == "-" }

  lemma {:induction false} SignedParts(sign: string, u: string)
    requires IsSign(sign) && u != "" && IsDigit(u[0])
    ensures var s := sign + u;
            (if Signed(s) then s[1..] else s) == u && Unsigned(s) == u && s != "" && (s[0] == '-' <==> sign == "-")
            && (IsDigit(s[0]) || s[0] == '-' || s[0] == '+') && s[|s| - 1] == u[|u| - 1]
  {
    var s := sign + u;
    if sign != "" {
      assert s[0] == sign[0] && s[1..] == u;
    } else {
      assert s == u;
    }
  }

  lemma {:induction false} TextParts(sign: string, i: string, f: Option<string>)
    requires IsSign(sign) && Number(i) && (f.Some? ==> Number(f.value))
    ensures var s := sign + (i + Tail(f));
            && WellFormed(s) && TrimSpace(s) == s && s != "" && (s[0] == '-' <==> sign == "-")
            && IntegerDigits(s) == i && FractionDigits(s) == (if f.Some? then f.value else "")
  {
    hide SplitPoint, TrimSpace, IsSpace, Signed, Unsigned;
    DigitsThenPoint(i, f);
    var u := i + Tail(f);
    assert u[0] == i[0] && IsDigit(u[0]);
    assert IsDigit(u[|u| - 1]);
    SignedParts(sign, u);
    NoSpaceAtEnds(sign + u);
  }

  /** A number as the text writes it: an optional sign, digits, and perhaps a point and more digits. */
  ghost predicate Writes(s: string, sign: string, i: string, f: Option<string>) {
    IsSign(sign) && Number(i) && (f.Some? ==> Number(f.value)) && s == sign + (i + Tail(f))
  }

  lemma {:induction false} WellFormedMeans(s: string)
    ensures WellFormed(s) <==> exists sign, i, f :: Writes(s, sign, i, f)
  {
    if WellFormed(s) {
      var u := if Signed(s) then s[1..] else s;
      var parts := SplitPoint(u);
      var sign := if Signed(s) then [s[0]] else "";
      assert u == parts.0 + Tail(parts.1);
      assert Writes(s, sign, parts.0, parts.1);
    }
    if sign, i, f :| Writes(s, sign, i, f) {
      TextParts(sign, i, f);
    }
  }

  /** What every text parses to, read off its digits: spaces around it do not matter, a plus sign is
      no sign, leading zeros do not count, and everything that is no number is invalid. */
  lemma {:induction false} EveryTextIsRead(value: string, integerDigits: int, scale: int)
    requires TrimSpace(value) != ""
    ensures var s, r := TrimSpace(value), ParseBoundedDecimalField(value, integerDigits, scale);
            && (forall sign, i, f :: Writes(s, sign, i, f) && integerDigits >= 1 && scale >= 0 ==>
                  var digits := if f.Some? then f.value else "";
                  r == if Value(i) < Pow10(integerDigits) && |digits| <= scale
                       then Ok(Decimal((if sign == "-" then -1 else 1) * Value(i + digits), |digits|)) else OutOfRange)
            && (r == Invalid <==> integerDigits < 1 || scale < 0 || !exists sign, i, f :: Writes(s, sign, i, f))
  {
    hide TrimSpace, WellFormed, Pow10, Value;
    var s, r := TrimSpace(value), ParseBoundedDecimalField(value, integerDigits, scale);
    WellFormedMeans(s);
    forall sign, i, f | Writes(s, sign, i, f) && integerDigits >= 1 && scale >= 0
      ensures var digits := if f.Some? then f.value else "";
              r == if Value(i) < Pow10(integerDigits) && |digits| <= scale
                   then Ok(Decimal((if sign == "-" then -1 else 1) * Value(i + digits), |digits|)) else OutOfRange
    {
      WrittenIsRead(value, sign, i, f, integerDigits, scale);
    }
  }

  lemma {:induction false} WrittenIsRead(value: string, sign: string, i: string, f: Option<string>, integerDigits: int, scale: int)
    requires Writes(TrimSpace(value), sign, i, f) && integerDigits >= 1 && scale >= 0
    ensures var digits := if f.Some? then f.value else "";
            ParseBoundedDecimalField(value, integerDigits, scale) ==
            if Value(i) < Pow10(integerDigits) && |digits| <= scale
            then Ok(Decimal((if sign == "-" then -1 else 1) * Value(i + digits), |digits|)) else OutOfRange
  {
    hide TrimSpace, WellFormed, IntegerDigits, FractionDigits, TrimZeros, Pow10, Value;
    TextParts(sign, i, f);
    DigitCountIsBound(i, integerDigits);
  }

  lemma {:induction false} PrintedParts(n: int, scale: nat, zeros: nat)
    ensures var s := Print(n, scale, zeros);
            && WellFormed(s) && TrimSpace(s) == s && s != "" && (s[0] == '-' <==> n < 0)
            && IntegerDigits(s) == Zeros(zeros) + Digits(DivMod(Magnitude(n), Pow10(scale)).0)
            && FractionDigits(s) == Padded(DivMod(Magnitude(n), Pow10(scale)).1, scale)
  {
    hide Zeros, Digits, Padded, SplitPoint, TrimSpace, Pow10, IsSpace, DivMod, Value, WellFormed, IntegerDigits, FractionDigits;
    var (whole, part) := DivMod(Magnitude(n), Pow10(scale));
    var i := Zeros(zeros) + Digits(whole);
    var f := if scale == 0 then None else Some(Padded(part, scale));
    TextParts(if n < 0 then "-" else "", i, f);
    assert Print(n, scale, zeros) == (if n < 0 then "-" else "") + (i + Tail(f));
    assert scale == 0 ==> Padded(part, scale) == "";
  }

  lemma {:induction false} NoSpaceAtEnds(s: string)
    requires s != "" && (IsDigit(s[0]) || s[0] == '-' || s[0] == '+') && IsDigit(s[|s| - 1])
    ensures TrimSpace(s) == s
  {
    assert !IsSpace(s[0]) && !IsSpace(s[|s| - 1]);
  }

  /** Every N / 10^scale within the column is read back exactly, whatever the leading zeros; and
      nothing outside the column is. */
  lemma {:induction false} PrintParse(n: int, integerDigits: nat, scale: nat, zeros: nat)
    requires integerDigits >= 1
    ensures ParseBoundedDecimalField(Print(n, scale, zeros), integerDigits, scale)
         == if Magnitude(n) < Pow10(integerDigits + scale) then Ok(Decimal(n, scale)) else OutOfRange
  {
    hide Print, WellFormed, IntegerDigits, FractionDigits, TrimSpace, TrimZeros, Zeros, Digits, Padded, Pow10, DivMod, Value, Fits, ParseBoundedDecimalField;
    var s := Print(n, scale, zeros);
    var (whole, part) := DivMod(Magnitude(n), Pow10(scale));
    PrintedParts(n, scale, zeros);
    WellFormedParts(s);
    ValueOfConcat(Zeros(zeros), Digits(whole));
    ZerosValue(zeros);
    PaddedValue(part, scale);
    ValueOfConcat(IntegerDigits(s), FractionDigits(s));
    assert Exact(s) == Decimal(n, scale);
    AcceptanceIsNumeric(s, integerDigits, scale);
    FitsAtScale(n, integerDigits, scale);
    ParseCases(s, integerDigits, scale);
  }

  lemma {:induction false} FitsAtScale(n: int, integerDigits: nat, scale: nat)
    requires integerDigits >= 1
    ensures Fits(Decimal(n, scale), integerDigits, scale) <==> Magnitude(n) < Pow10(integerDigits + scale)
  {
    assert Pow10(0) == 1;
  }

  lemma {:induction false} ParseCases(value: string, integerDigits: nat, scale: nat)
    requires TrimSpace(value) != "" && WellFormed(TrimSpace(value)) && integerDigits >= 1
    ensures ParseBoundedDecimalField(value, integerDigits, scale) != Invalid
  {
    hide TrimSpace, WellFormed, TrimZeros, IntegerDigits, FractionDigits;
  }
}
