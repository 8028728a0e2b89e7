/** Reading one report file: the plausibility checks on its bytes, the
    ordered checks of `ParseDMARCReport`, and the validation of the mandatory
    fields.  The file system and the XML decoder are given as values: what
    `os.Stat` and `os.ReadFile` report about the path, and a function from
    bytes to a decoded document. */
module Parser {
  import opened Wrappers
  import opened Text
  import opened Decimal
  import opened Dmarc

  /** What the file system reports about one path. */
  datatype FileView =
    | Missing                                               // `os.Stat` fails with "not exist"
    | StatFailed(detail: string)                            // `os.Stat` fails otherwise
    | Present(size: nat, read: Result<seq<byte>, string>)   // the size `os.Stat` gives, then `os.ReadFile`

  /** What the XML decoder produces for the report: every field except the
      date range, and the text of the `date_range` children if the element
      is present.  The date range itself is filled in by
      `Dmarc.DecodeDateRange`, as the decoder calls the custom
      `UnmarshalXML` for it. */
  datatype DecodedXml = DecodedXml(report: Report, dateRange: Option<RawDateRange>)

  /** `xml.Decoder.Decode` with HTML entities and strict mode: decoded
      document or the decoder's error text. */
  type Decoder = seq<byte> -> Result<DecodedXml, string>

  // ---------------------------------------------------------------------
  // validateReport

  datatype ValidationError = MissingReportId | MissingOrgName | MissingDomain | InvalidDateRange {
    function Message(): string {
      match this
      case MissingReportId => "missing report ID"
      case MissingOrgName => "missing organization name"
      case MissingDomain => "missing domain in policy"
      case InvalidDateRange => "invalid date range"
    }
  }

  /** The mandatory fields are non-empty and both endpoints are set. */
  predicate IsValid(report: Report) {
    report.reportMetadata.reportId != ""
    && report.reportMetadata.orgName != ""
    && report.policyPublished.domain != ""
    && report.reportMetadata.dateRange.begin != Unset
    && report.reportMetadata.dateRange.end != Unset
  }

  /** `validateReport`: report ID, then organisation name, then policy
      domain, then date range; the first missing one is reported. */
  function ValidateReport(report: Report): (e: Option<ValidationError>)
    ensures e.None? <==> IsValid(report)
    ensures e == Some(MissingReportId) <==> report.reportMetadata.reportId == ""
    ensures e == Some(MissingOrgName) <==>
              report.reportMetadata.reportId != "" && report.reportMetadata.orgName == ""
    ensures e == Some(MissingDomain) <==>
              report.reportMetadata.reportId != "" && report.reportMetadata.orgName != ""
              && report.policyPublished.domain == ""
    ensures e == Some(InvalidDateRange) <==>
              report.reportMetadata.reportId != "" && report.reportMetadata.orgName != ""
              && report.policyPublished.domain != ""
              && (report.reportMetadata.dateRange.begin == Unset || report.reportMetadata.dateRange.end == Unset)
  {
    if report.reportMetadata.reportId == "" then Some(MissingReportId)
    else if report.reportMetadata.orgName == "" then Some(MissingOrgName)
    else if report.policyPublished.domain == "" then Some(MissingDomain)
    else if report.reportMetadata.dateRange.begin == Unset || report.reportMetadata.dateRange.end == Unset
    then Some(InvalidDateRange)
    else None
  }

  // ---------------------------------------------------------------------
  // hasXMLHeader, hasRootElement

  /** `<?xml` */
  const XmlDeclaration: seq<byte> := [0x3C, 0x3F, 0x78, 0x6D, 0x6C]
  /** `<feedback` */
  const FeedbackTag: seq<byte> := [0x3C, 0x66, 0x65, 0x65, 0x64, 0x62, 0x61, 0x63, 0x6B]
  /** `<report` */
  const ReportTag: seq<byte> := [0x3C, 0x72, 0x65, 0x70, 0x6F, 0x72, 0x74]
  /** `<report_metadata`, the first child of a `feedback` root */
  const ReportMetadataTag: seq<byte> := ReportTag + [0x5F, 0x6D, 0x65, 0x74, 0x61, 0x64, 0x61, 0x74, 0x61]

  /** `hasXMLHeader`: the trimmed bytes start with `<?xml`. */
  predicate HasXmlHeader(data: seq<byte>) {
    HasPrefix(TrimSpaceBytes(data), XmlDeclaration)
  }

  /** `hasRootElement`: the trimmed bytes contain `<feedback` or `<report`. */
  predicate HasRootElement(data: seq<byte>) {
    Contains(TrimSpaceBytes(data), FeedbackTag) || Contains(TrimSpaceBytes(data), ReportTag)
  }

  /** Trimming does not matter to `hasRootElement`: both tags start with `<`
      and end with a letter, none of which belongs to white space. */
  lemma HasRootElementMeaning(data: seq<byte>)
    ensures HasRootElement(data) <==> Contains(data, FeedbackTag) || Contains(data, ReportTag)
  {
    ContainsIgnoresTrim(data, FeedbackTag);
    ContainsIgnoresTrim(data, ReportTag);
  }

  /** The check is loose: `<report_metadata`, or any longer name starting
      with `report`, passes it without a `feedback` root. */
  lemma ReportMetadataPassesRootCheck(data: seq<byte>)
    requires Contains(data, ReportMetadataTag)
    ensures HasRootElement(data)
  {
    ContainsExtended(data, ReportTag, ReportMetadataTag[|ReportTag|..]);
    HasRootElementMeaning(data);
  }

  /** Data that starts with `<?xml` has the header. */
  lemma DeclarationAtStartIsHeader(data: seq<byte>)
    requires HasPrefix(data, XmlDeclaration)
    ensures HasXmlHeader(data)
  {
    TrimKeepsNonBlankStart(data, XmlDeclaration);
  }

  /** Data made only of white-space runes passes neither check. */
  lemma BlankIsNotXml(data: seq<byte>)
    requires IsBlank(data)
    ensures !HasXmlHeader(data) && !HasRootElement(data)
  {
    BlankTrimsToEmpty(data);
  }

  // ---------------------------------------------------------------------
  // ParseDMARCReport

  datatype DecodeCause = XmlSyntax(message: string) | BadTimestamp(timestamp: TimestampError) {
    function Message(): string {
      match this
      case XmlSyntax(m) => m
      case BadTimestamp(e) => e.Message()
    }
  }

  /** The errors of `ParseDMARCReport`; each names the file. */
  datatype ParseError =
    | FileNotFound(path: string)
    | AccessFailed(path: string, detail: string)
    | FileEmpty(path: string)
    | ReadFailed(path: string, detail: string)
    | NotXml(path: string)
    | InvalidXml(path: string, cause: DecodeCause)
    | InvalidReport(path: string, reason: ValidationError)
  {
    function Message(): string {
      match this
      case FileNotFound(p) => "file not found: " + p
      case AccessFailed(p, d) => "error accessing file " + p + ": " + d
      case FileEmpty(p) => "file is empty: " + p
      case ReadFailed(p, d) => "could not read file " + p + ": " + d
      case NotXml(p) => "file " + p + " does not appear to be valid XML"
      case InvalidXml(p, c) => "invalid XML in file " + p + ": " + c.Message()
      case InvalidReport(p, v) => "invalid DMARC report in file " + p + ": " + v.Message()
    }
  }

  function WithDateRange(report: Report, dr: DateRange): Report {
    report.(reportMetadata := report.reportMetadata.(dateRange := dr))
  }

  /** `decoder.Decode(&report)` into a zero report: the decoder's own error,
      or the timestamp error of `date_range`, or the report. */
  function Decode(decode: Decoder, data: seq<byte>): (r: Result<Report, DecodeCause>)
    ensures decode(data).Err? <==> r.Err? && r.error.XmlSyntax?
    ensures r.Ok? ==> decode(data).Ok?
                      && r.value == WithDateRange(decode(data).value.report, r.value.reportMetadata.dateRange)
    ensures r.Ok? && decode(data).value.dateRange.Some? ==>
              r.value.reportMetadata.dateRange.begin.At? && r.value.reportMetadata.dateRange.end.At?
  {
    match decode(data)
    case Err(m) => Err(XmlSyntax(m))
    case Ok(d) =>
      match d.dateRange
      case None => Ok(WithDateRange(d.report, ZeroDateRange))
      case Some(raw) =>
        var (dr, err) := DecodeDateRange(ZeroDateRange, raw);
        if err.Some? then Err(BadTimestamp(err.value)) else Ok(WithDateRange(d.report, dr))
  }

  /** `ParseDMARCReport(path)`: existence, then size, then reading, then
      the plausibility checks, then decoding of the trimmed bytes, then
      validation. */
  function Parse(path: string, file: FileView, decode: Decoder): (r: Result<Report, ParseError>)
    ensures r.Err? ==> r.error.path == path
    ensures r.Ok? ==> IsValid(r.value)
    ensures file.Present? && file.size == 0 ==> r == Err(FileEmpty(path))
  {
    match file
    case Missing => Err(FileNotFound(path))
    case StatFailed(detail) => Err(AccessFailed(path, detail))
    case Present(size, read) =>
      if size == 0 then Err(FileEmpty(path))
      else if read.Err? then Err(ReadFailed(path, read.error))
      else ParseContent(path, read.value, decode)
  }

  /** The stages after reading: the plausibility checks on the bytes as
      read, then decoding and validation of the trimmed bytes.  Bytes that
      fail both checks are never decoded. */
  function ParseContent(path: string, data: seq<byte>, decode: Decoder): (r: Result<Report, ParseError>)
    ensures r.Err? ==> r.error.path == path
    ensures r.Ok? ==> IsValid(r.value)
    ensures !HasXmlHeader(data) && !HasRootElement(data) ==> r == Err(NotXml(path))
  {
    if !HasXmlHeader(data) && !HasRootElement(data) then Err(NotXml(path))
    else DecodeAndValidate(path, TrimSpaceBytes(data), decode)
  }

  /** Decoding, then validation of what was decoded. */
  function DecodeAndValidate(path: string, data: seq<byte>, decode: Decoder): (r: Result<Report, ParseError>)
    ensures r.Err? ==> r.error.path == path
    ensures r.Ok? ==> IsValid(r.value)
    ensures r.Err? && r.error.InvalidReport? ==> Decode(decode, data).Ok?
    ensures decode(data).Err? ==> r == Err(InvalidXml(path, XmlSyntax(decode(data).error)))
  {
    match Decode(decode, data)
    case Err(cause) => Err(InvalidXml(path, cause))
    case Ok(report) =>
      match ValidateReport(report)
      case Some(v) => Err(InvalidReport(path, v))
      case None => Ok(report)
  }

  /** The steps of `ParseDMARCReport` in order, with its early returns; the
      decoder's call into the date-range decoder is made explicit. */
  method ParseDMARCReport(path: string, file: FileView, decode: Decoder) returns (r: Result<Report, ParseError>)
    ensures r == Parse(path, file, decode)
  {
    if file.Missing? {
      return Err(FileNotFound(path));
    }
    if file.StatFailed? {
      return Err(AccessFailed(path, file.detail));
    }
    if file.size == 0 {
      return Err(FileEmpty(path));
    }
    if file.read.Err? {
      return Err(ReadFailed(path, file.read.error));
    }
    var data := file.read.value;
    if !HasXmlHeader(data) && !HasRootElement(data) {
      return Err(NotXml(path));
    }
    data := TrimSpaceBytes(data);
    var decoded := decode(data);
    if decoded.Err? {
      return Err(InvalidXml(path, XmlSyntax(decoded.error)));
    }
    var report := WithDateRange(decoded.value.report, ZeroDateRange);
    if decoded.value.dateRange.Some? {
      var dr, err := UnmarshalDateRange(ZeroDateRange, decoded.value.dateRange.value);
      if err.Some? {
        return Err(InvalidXml(path, BadTimestamp(err.value)));
      }
      report := WithDateRange(report, dr);
    }
    var invalid := ValidateReport(report);
    if invalid.Some? {
      return Err(InvalidReport(path, invalid.value));
    }
    return Ok(report);
  }

  /** A non-empty file made only of white-space runes is rejected as not
      XML, whatever the decoder would have said. */
  lemma BlankFileIsNotXml(path: string, size: nat, data: seq<byte>, decode: Decoder)
    requires size > 0
    requires IsBlank(data)
    ensures Parse(path, Present(size, Ok(data)), decode) == Err(NotXml(path))
  {
    ParseReadFile(path, size, data, decode);
    BlankIsNotXml(data);
  }

  /** A non-empty file that was read goes on to the content checks. */
  lemma ParseReadFile(path: string, size: nat, data: seq<byte>, decode: Decoder)
    requires size > 0
    ensures Parse(path, Present(size, Ok(data)), decode) == ParseContent(path, data, decode)
  {
  }

  /** A successful parse passed every stage, and what it returns is the
      decoded report, unchanged but for the date range, which holds the
      values of the two decimal endpoints. */
  lemma ParseSuccess(path: string, file: FileView, decode: Decoder)
    requires Parse(path, file, decode).Ok?
    ensures file.Present? && file.size > 0 && file.read.Ok?
    ensures HasXmlHeader(file.read.value) || HasRootElement(file.read.value)
    ensures Parse(path, file, decode) == DecodeAndValidate(path, TrimSpaceBytes(file.read.value), decode)
  {
  }

  /** What decoding and validation accept: a decoded document whose
      `date_range` holds two 64-bit decimals, returned as decoded but for
      the date range, which holds their values. */
  lemma DecodeAndValidateSuccess(path: string, data: seq<byte>, decode: Decoder)
    requires DecodeAndValidate(path, data, decode).Ok?
    ensures var out := decode(data);
            out.Ok? && out.value.dateRange.Some?
            && var raw := out.value.dateRange.value;
               IsInt64Decimal(raw.begin) && IsInt64Decimal(raw.end)
               && DecodeAndValidate(path, data, decode).value
                  == WithDateRange(out.value.report, DateRange(At(DecimalValue(raw.begin)), At(DecimalValue(raw.end))))
  {
    MissingDateRangeIsInvalid(decode, data);
    var out := decode(data);
    assert out.Ok?;
    assert out.value.dateRange.Some?;
    DecodeDateRangeMeaning(ZeroDateRange, out.value.dateRange.value);
  }

  /** A document without `date_range` decodes to a report that fails
      validation. */
  lemma MissingDateRangeIsInvalid(decode: Decoder, data: seq<byte>)
    ensures decode(data).Ok? && decode(data).value.dateRange.None? ==>
              Decode(decode, data).Ok? && !IsValid(Decode(decode, data).value)
  {
  }

  /** A timestamp error surfaces as invalid XML, carrying the decimal the
      decoder could not read, and is never confused with a validation
      failure. */
  lemma TimestampErrorIsInvalidXml(path: string, data: seq<byte>, decode: Decoder)
    requires decode(data).Ok? && decode(data).value.dateRange.Some?
    requires !IsInt64Decimal(decode(data).value.dateRange.value.begin)
    ensures var r := DecodeAndValidate(path, data, decode);
            r.Err? && r.error.InvalidXml? && r.error.cause.BadTimestamp?
            && r.error.cause.timestamp.endpoint == Begin
            && r.error.cause.timestamp.cause.num == decode(data).value.dateRange.value.begin
  {
    DecodeDateRangeMeaning(ZeroDateRange, decode(data).value.dateRange.value);
  }
}
