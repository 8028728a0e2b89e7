/** Signed base-10 integers as Go's `strconv.ParseInt(s, 10, 64)` reads them
    and `strconv.FormatInt(n, 10)` writes them.  The date range of a report
    carries its two endpoints as such decimal strings. */
module Decimal {
  import opened Wrappers

  const MaxInt64: int := 0x7FFF_FFFF_FFFF_FFFF
  const MinInt64: int := -0x8000_0000_0000_0000
  const MaxUint64: int := 0xFFFF_FFFF_FFFF_FFFF

  /** Go's `int64` (and `int` on 64-bit platforms). */
  type int64 = x: int | MinInt64 <= x <= MaxInt64

  predicate IsDigit(c: char) {
    '0' <= c <= '9'
  }

  function DigitValue(c: char): (d: nat)
    requires IsDigit(c)
    ensures d < 10
  {
    c as int - '0' as int
  }

  function DigitChar(d: nat): (c: char)
    requires d < 10
    ensures IsDigit(c) && DigitValue(c) == d
  {
    ('0' as int + d) as char
  }

  predicate AllDigits(s: string) {
    forall i | 0 <= i < |s| :: IsDigit(s[i])
  }

  function Pow10(n: nat): (r: nat)
    ensures r >= 1
  {
    if n == 0 then 1 else 10 * Pow10(n - 1)
  }

  /** The value of a string of digits read as a base-10 numeral. */
  function DigitsValue(s: string): (v: nat)
    requires AllDigits(s)
  {
    if s == [] then 0 else DigitsValue(s[..|s| - 1]) * 10 + DigitValue(s[|s| - 1])
  }

  /** The length of the run of digits `s` starts with. */
  function DigitRun(s: string): (n: nat)
    ensures n <= |s| && AllDigits(s[..n])
    ensures n == |s| || !IsDigit(s[n])
  {
    if s == [] || !IsDigit(s[0]) then 0
    else
      var n := 1 + DigitRun(s[1..]);
      assert s[..n] == [s[0]] + s[1..][..n - 1];
      n
  }

  // ---------------------------------------------------------------------
  // The unsigned scan of `strconv.ParseUint(s, 10, 64)`.

  datatype Scan = Value(n: nat) | BadDigit | Overflow

  /** Reads `s` left to right into the accumulator `acc`.  A byte that is not
      a digit stops the scan with a syntax failure; so does, earlier, a digit
      that would take the accumulator past the largest 64-bit unsigned value,
      with a range failure. */
  function ScanUint(s: string, acc: nat): Scan
    decreases |s|
  {
    if s == [] then Value(acc)
    else if !IsDigit(s[0]) then BadDigit
    else if acc * 10 + DigitValue(s[0]) > MaxUint64 then Overflow
    else ScanUint(s[1..], acc * 10 + DigitValue(s[0]))
  }

  /** Moving one more digit into place, as arithmetic. */
  lemma Regroup(a: int, p: int, b: int, d: int)
    ensures (a * p + b) * 10 + d == a * (p * 10) + (b * 10 + d)
  {
  }

  lemma {:induction false} DigitsValueCons(c: char, t: string)
    requires IsDigit(c) && AllDigits(t)
    ensures AllDigits([c] + t)
    ensures DigitsValue([c] + t) == DigitValue(c) * Pow10(|t|) + DigitsValue(t)
    decreases |t|
  {
    var s := [c] + t;
    assert forall i | 0 <= i < |s| :: s[i] == if i == 0 then c else t[i - 1];
    if t != [] {
      var t' := t[..|t| - 1];
      assert s[..|s| - 1] == [c] + t';
      DigitsValueCons(c, t');
      var last := DigitValue(t[|t| - 1]);
      assert DigitsValue(s) == DigitsValue([c] + t') * 10 + last;
      Regroup(DigitValue(c), Pow10(|t'|), DigitsValue(t'), last);
    } else {
      assert s[..0] == [];
    }
  }

  /** What the scan decides: it overflows exactly when the leading run of
      digits, appended to the accumulator, exceeds the unsigned range;
      otherwise it succeeds when the run is the whole input and fails on the
      first non-digit when it is not. */
  lemma {:induction false} ScanUintRun(s: string, acc: nat)
    requires acc <= MaxUint64
    ensures var n := DigitRun(s);
            var v := acc * Pow10(n) + DigitsValue(s[..n]);
            ScanUint(s, acc) == if v > MaxUint64 then Overflow else if n == |s| then Value(v) else BadDigit
    decreases |s|
  {
    var n := DigitRun(s);
    if s == [] || !IsDigit(s[0]) {
      assert n == 0 && s[..n] == [];
    } else {
      var d := DigitValue(s[0]);
      var t := s[1..];
      var m := DigitRun(t);
      assert n == m + 1;
      assert s[..n] == [s[0]] + t[..m];
      DigitsValueCons(s[0], t[..m]);
      var acc' := acc * 10 + d;
      ShiftDigit(acc, d, Pow10(m), DigitsValue(t[..m]));
      if acc' <= MaxUint64 {
        ScanUintRun(t, acc');
      }
    }
  }

  /** Appending a digit to the accumulator before or after the rest of the
      run gives the same value, and never a smaller one than the accumulator. */
  lemma ShiftDigit(acc: nat, d: nat, p: nat, rest: nat)
    requires p >= 1
    ensures acc * (10 * p) + (d * p + rest) == (acc * 10 + d) * p + rest
    ensures (acc * 10 + d) * p + rest >= acc * 10 + d
  {
  }

  // ---------------------------------------------------------------------
  // strconv.ParseInt(s, 10, 64)

  datatype NumErrorKind = ErrSyntax | ErrRange

  /** `*strconv.NumError`: the input that was rejected and why. */
  datatype NumError = NumError(num: string, err: NumErrorKind) {
    function Message(): string {
      "strconv.ParseInt: parsing \"" + num + "\": "
      + (if err == ErrSyntax then "invalid syntax" else "value out of range")
    }
  }

  /** The input without the one leading sign it may have. */
  function Body(s: string): (b: string)
    ensures |b| <= |s|
  {
    if |s| > 0 && (s[0] == '+' || s[0] == '-') then s[1..] else s
  }

  /** An optional sign followed by at least one digit. */
  predicate IsDecimal(s: string) {
    |Body(s)| > 0 && AllDigits(Body(s))
  }

  function DecimalValue(s: string): int
    requires IsDecimal(s)
  {
    if s[0] == '-' then -(DigitsValue(Body(s)) as int) else DigitsValue(Body(s))
  }

  predicate IsInt64Decimal(s: string) {
    IsDecimal(s) && MinInt64 <= DecimalValue(s) <= MaxInt64
  }

  /** `strconv.ParseInt(s, 10, 64)`.  Every error reports the whole input. */
  function ParseInt(s: string): (r: Result<int64, NumError>)
    ensures r.Err? ==> r.error.num == s
    ensures s == "" ==> r == Err(NumError(s, ErrSyntax))
  {
    if s == "" then Err(NumError(s, ErrSyntax))
    else
      var neg := s[0] == '-';
      var body := Body(s);
      if body == "" then Err(NumError(s, ErrSyntax))
      else match ScanUint(body, 0)
        case BadDigit => Err(NumError(s, ErrSyntax))
        case Overflow => Err(NumError(s, ErrRange))
        case Value(u) =>
          if !neg && u > MaxInt64 then Err(NumError(s, ErrRange))
          else if neg && u > -MinInt64 then Err(NumError(s, ErrRange))
          else Ok(if neg then -(u as int) else u)
  }

  /** `ParseInt` accepts exactly the signed decimals inside the 64-bit
      range, and returns their value. */
  lemma ParseIntMeaning(s: string)
    ensures ParseInt(s).Ok? <==> IsInt64Decimal(s)
    ensures ParseInt(s).Ok? ==> ParseInt(s).value == DecimalValue(s)
  {
    var body := Body(s);
    if body != "" {
      ScanUintRun(body, 0);
      var n := DigitRun(body);
      if n == |body| {
        assert body[..n] == body;
      }
    }
  }

  /** A syntax error is reported exactly when the input is not a decimal and
      the run of digits after the sign stays inside the unsigned 64-bit
      range; every other failure is a range error. */
  lemma ParseIntErrorKinds(s: string)
    ensures var body := Body(s);
            var run := body[..DigitRun(body)];
            ParseInt(s) == Err(NumError(s, ErrSyntax)) <==> !IsDecimal(s) && DigitsValue(run) <= MaxUint64
    ensures ParseInt(s) == Err(NumError(s, ErrRange)) <==> ParseInt(s).Err? && !(ParseInt(s).error.err == ErrSyntax)
  {
    var body := Body(s);
    var n := DigitRun(body);
    if body != "" {
      ScanUintRun(body, 0);
      if n == |body| {
        assert body[..n] == body;
      }
    } else {
      assert body[..n] == [];
    }
  }

  /** A well-formed decimal outside the 64-bit range is a range error. */
  lemma ParseIntRejectsOutOfRange(s: string)
    requires IsDecimal(s) && !(MinInt64 <= DecimalValue(s) <= MaxInt64)
    ensures ParseInt(s) == Err(NumError(s, ErrRange))
  {
    ParseIntMeaning(s);
    ParseIntErrorKinds(s);
    var body := Body(s);
    assert body[..DigitRun(body)] == body;
  }

  // ---------------------------------------------------------------------
  // strconv.FormatInt(n, 10)

  function FormatNat(n: nat): (s: string)
    ensures |s| > 0 && AllDigits(s)
  {
    if n < 10 then [DigitChar(n)] else FormatNat(n / 10) + [DigitChar(n % 10)]
  }

  /** `strconv.FormatInt(n, 10)`: a minus sign for negative values, then the
      digits without leading zeros. */
  function FormatInt(n: int): (s: string)
    ensures |s| > 0
    ensures n < 0 ==> s[0] == '-'
    ensures n >= 0 ==> IsDigit(s[0])
  {
    if n < 0 then "-" + FormatNat(-n) else FormatNat(n)
  }

  lemma {:induction false} FormatNatValue(n: nat)
    ensures DigitsValue(FormatNat(n)) == n
  {
    var s := FormatNat(n);
    if n >= 10 {
      assert s[..|s| - 1] == FormatNat(n / 10);
      FormatNatValue(n / 10);
    }
  }

  /** The decimal rendering of any 64-bit value reads back as that value. */
  lemma ParseFormatRoundTrip(n: int64)
    ensures ParseInt(FormatInt(n)) == Ok(n)
  {
    var s := FormatInt(n);
    if n < 0 {
      var m: nat := -(n as int);
      var digits := FormatNat(m);
      assert s == "-" + digits;
      assert Body(s) == digits;
      FormatNatValue(m);
      assert DecimalValue(s) == n;
    } else {
      var digits := FormatNat(n);
      assert s == digits;
      assert Body(s) == digits;
      FormatNatValue(n);
      assert DecimalValue(s) == n;
    }
    ParseIntMeaning(s);
  }

  /** An epoch-second string of the kind report generators write. */
  lemma ParseIntEpochExample()
    ensures ParseInt("1700000000") == Ok(1700000000)
  {
    assert FormatNat(1) == "1";
    assert FormatNat(17) == "17";
    assert FormatNat(170) == "170";
    assert FormatNat(1700) == "1700";
    assert FormatNat(17000) == "17000";
    assert FormatNat(170000) == "170000";
    assert FormatNat(1700000) == "1700000";
    assert FormatNat(17000000) == "17000000";
    assert FormatNat(170000000) == "170000000";
    assert FormatNat(1700000000) == "1700000000";
    ParseFormatRoundTrip(1700000000);
  }

  /** Text and a bare sign are syntax errors; so is the empty string. */
  lemma ParseIntSyntaxExamples()
    ensures ParseInt("not-a-number") == Err(NumError("not-a-number", ErrSyntax))
    ensures ParseInt("+") == Err(NumError("+", ErrSyntax))
    ensures ParseInt("-") == Err(NumError("-", ErrSyntax))
    ensures ParseInt("12a") == Err(NumError("12a", ErrSyntax))
  {
    assert Body("+") == "";
    assert Body("-") == "";
    assert Body("12a") == "12a";
    assert ScanUint("a", 12) == BadDigit;
  }
}
