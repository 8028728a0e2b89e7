/** The DMARC aggregate report as the program holds it after decoding (the
    feedback document of RFC 7489, Appendix C), Go's `time.Time` as far as
    the program observes it, and the custom decoder of the `date_range`
    element, which reads two epoch-second strings. */
module Dmarc {
  import opened Wrappers
  import opened Decimal

  // ---------------------------------------------------------------------
  // Timestamps

  /** Seconds from 1 January of year 1 to the Unix epoch: Go keeps instants
      as 64-bit seconds counted from year 1. */
  const UnixToInternal: int := 62135596800

  /** A `time.Time` field: `Unset` is the zero value `time.Time{}` that a
      field holds before anything is decoded into it; `At(s)` is
      `time.Unix(s, 0)`.  `time.Unix` attaches the local time zone, which the
      zero value lacks, so no `At(s)` equals `Unset`, not even `At(0)`. */
  datatype Time = Unset | At(unix: int64)

  /** Two's-complement wrap-around of a 64-bit signed addition. */
  function Wrap64(x: int): (r: int64)
    ensures MinInt64 <= x <= MaxInt64 ==> r == x
    ensures (r - x) % 0x1_0000_0000_0000_0000 == 0
  {
    (x - MinInt64) % 0x1_0000_0000_0000_0000 + MinInt64
  }

  /** The internal seconds that `Before` and `After` compare. */
  function Seconds(t: Time): (s: int64)
    ensures t.At? && t.unix <= MaxInt64 - UnixToInternal ==> s == t.unix + UnixToInternal
  {
    match t
    case Unset => 0
    case At(s) => Wrap64(s + UnixToInternal)
  }

  predicate Before(t: Time, u: Time)
    ensures Before(t, u) <==> After(u, t)
    ensures Before(t, u) ==> !After(t, u) && t != u
  {
    Seconds(t) < Seconds(u)
  }

  predicate After(t: Time, u: Time)
    ensures After(t, u) ==> t != u
  {
    Seconds(t) > Seconds(u)
  }

  /** Instants whose year-1 seconds fit in 64 bits are ordered by their Unix
      seconds, and all of them lie after the zero value. */
  lemma BeforeIsChronological(s: int64, u: int64)
    requires s <= MaxInt64 - UnixToInternal && u <= MaxInt64 - UnixToInternal
    ensures Before(At(s), At(u)) <==> s < u
    ensures After(At(s), At(u)) <==> s > u
    ensures s > -UnixToInternal ==> After(At(s), Unset)
  {
  }

  /** Beyond that range the 64-bit addition wraps: the latest representable
      Unix second orders before the epoch. */
  lemma LatestSecondWraps()
    ensures Before(At(MaxInt64), At(0))
    ensures Seconds(At(MaxInt64)) == MinInt64 + UnixToInternal - 1
  {
    assert MaxInt64 + UnixToInternal - MinInt64 == 0x1_0000_0000_0000_0000 + UnixToInternal - 1;
  }

  // ---------------------------------------------------------------------
  // The report

  datatype DateRange = DateRange(begin: Time, end: Time)

  const ZeroDateRange := DateRange(Unset, Unset)

  datatype ReportMetadata = ReportMetadata(
    orgName: string,
    email: string,
    extraContact: string,
    reportId: string,
    dateRange: DateRange)

  datatype PolicyPublished = PolicyPublished(
    domain: string,
    adkim: string,
    aspf: string,
    p: string,
    sp: string,
    pct: int64)

  datatype PolicyEvaluated = PolicyEvaluated(disposition: string, dkim: string, spf: string)

  datatype Row = Row(sourceIp: string, count: int64, policyEvaluated: PolicyEvaluated)

  datatype Identifiers = Identifiers(headerFrom: string)

  datatype DkimAuthResult = DkimAuthResult(domain: string, result: string, selector: string)

  datatype SpfAuthResult = SpfAuthResult(domain: string, result: string, scope: string)

  datatype AuthResults = AuthResults(dkim: seq<DkimAuthResult>, spf: seq<SpfAuthResult>)

  datatype Record = Record(row: Row, identifiers: Identifiers, authResults: AuthResults)

  /** One decoded aggregate report (`DMARCReport`). */
  datatype Report = Report(
    reportMetadata: ReportMetadata,
    policyPublished: PolicyPublished,
    records: seq<Record>)

  // ---------------------------------------------------------------------
  // Decoding `date_range`

  /** The text content of the `begin` and `end` children (empty when a
      child is absent). */
  datatype RawDateRange = RawDateRange(begin: string, end: string)

  datatype Endpoint = Begin | End

  /** The error the decoder returns; it wraps the `strconv` error. */
  datatype TimestampError = TimestampError(endpoint: Endpoint, cause: NumError) {
    function Message(): string {
      "invalid " + (if endpoint == Begin then "begin" else "end") + " timestamp: " + cause.Message()
    }
  }

  /** `DateRange.UnmarshalXML` applied to the range `dr` it decodes into:
      the new range and the error, if any.  `begin` is parsed and stored
      before `end` is looked at. */
  function DecodeDateRange(dr: DateRange, raw: RawDateRange): (r: (DateRange, Option<TimestampError>))
    ensures r.1.None? ==> r.0.begin.At? && r.0.end.At?
    ensures r.1.Some? && r.1.value.endpoint == Begin ==> r.0 == dr
    ensures r.1.Some? ==> r.0.end == dr.end
  {
    match ParseInt(raw.begin)
    case Err(e) => (dr, Some(TimestampError(Begin, e)))
    case Ok(b) =>
      var dr' := dr.(begin := At(b));
      match ParseInt(raw.end)
      case Err(e) => (dr', Some(TimestampError(End, e)))
      case Ok(n) => (dr'.(end := At(n)), None)
  }

  /** The receiver is updated field by field: `Begin` first, then `End`,
      with an early return after a failed parse. */
  method UnmarshalDateRange(dr: DateRange, raw: RawDateRange) returns (out: DateRange, err: Option<TimestampError>)
    ensures (out, err) == DecodeDateRange(dr, raw)
    ensures err.None? ==> out.begin != Unset && out.end != Unset
  {
    out := dr;
    var beginInt := ParseInt(raw.begin);
    if beginInt.Err? {
      return out, Some(TimestampError(Begin, beginInt.error));
    }
    out := out.(begin := At(beginInt.value));
    var endInt := ParseInt(raw.end);
    if endInt.Err? {
      return out, Some(TimestampError(End, endInt.error));
    }
    out := out.(end := At(endInt.value));
    err := None;
  }

  /** What the decoder does, in terms of the decimal syntax.
      - Both endpoints decode exactly when both are 64-bit decimals; then
        they hold those values, whatever their order.
      - A bad `begin` leaves the range as it was and reports `begin`,
        without `end` being examined.
      - A bad `end` after a good `begin` reports `end`, with `Begin`
        already overwritten. */
  lemma DecodeDateRangeMeaning(dr: DateRange, raw: RawDateRange)
    ensures var (out, err) := DecodeDateRange(dr, raw);
            (err.None? <==> IsInt64Decimal(raw.begin) && IsInt64Decimal(raw.end))
            && (err.None? ==> out == DateRange(At(DecimalValue(raw.begin)), At(DecimalValue(raw.end))))
            && (!IsInt64Decimal(raw.begin) ==>
                  out == dr && err.Some? && err.value.endpoint == Begin && err.value.cause.num == raw.begin)
            && (IsInt64Decimal(raw.begin) && !IsInt64Decimal(raw.end) ==>
                  out == dr.(begin := At(DecimalValue(raw.begin)))
                  && err.Some? && err.value.endpoint == End && err.value.cause.num == raw.end)
  {
    ParseIntMeaning(raw.begin);
    ParseIntMeaning(raw.end);
  }

  /** Every successful decode sets both endpoints, even to the epoch, and
      accepts a range that ends before it begins. */
  lemma DecodeDateRangeExamples()
    ensures DecodeDateRange(ZeroDateRange, RawDateRange("0", "0")) == (DateRange(At(0), At(0)), None)
    ensures At(0) != Unset
    ensures DecodeDateRange(ZeroDateRange, RawDateRange("1700000000", "0"))
            == (DateRange(At(1700000000), At(0)), None)
    ensures DecodeDateRange(ZeroDateRange, RawDateRange("not-a-number", "0")).1
            == Some(TimestampError(Begin, NumError("not-a-number", ErrSyntax)))
    ensures DecodeDateRange(ZeroDateRange, RawDateRange("1700000000", "")).0 == DateRange(At(1700000000), Unset)
  {
    ParseFormatRoundTrip(0);
    assert FormatInt(0) == "0";
    ParseIntEpochExample();
    ParseIntSyntaxExamples();
  }
}
