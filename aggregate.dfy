/** `AggregateReports`: one pass over a list of reports that counts reports
    and records, tallies five fields, widens a date range over all reports
    and lists the records that failed DKIM or SPF. */
module Aggregate {
  import opened Text
  import opened Decimal
  import opened Dmarc

  /** A record that failed DKIM or SPF, as listed in the aggregate view. */
  datatype FailedRecord = FailedRecord(sourceIp: string, domain: string, count: int64, reason: string)

  /** `AggregatedReport`.  Go's `map[string]int` counters become maps to
      `nat`; a key is present once it has been counted. */
  datatype AggregatedReport = AggregatedReport(
    totalReports: nat,
    totalRecords: nat,
    dateRange: DateRange,
    domains: map<string, nat>,
    sources: map<string, nat>,
    dispositions: map<string, nat>,
    dkimResults: map<string, nat>,
    spfResults: map<string, nat>,
    failedRecords: seq<FailedRecord>)

  // ---------------------------------------------------------------------
  // What the pass reads

  /** The records of all reports, report after report. */
  function AllRecords(reports: seq<Report>): seq<Record> {
    if reports == [] then []
    else AllRecords(reports[..|reports| - 1]) + reports[|reports| - 1].records
  }

  /** The number of records of each report, added up. */
  function RecordCount(reports: seq<Report>): nat {
    if reports == [] then 0
    else RecordCount(reports[..|reports| - 1]) + |reports[|reports| - 1].records|
  }

  /** The four record fields that are tallied. */
  datatype Field = SourceIp | Disposition | Dkim | Spf

  function FieldOf(r: Record, f: Field): string {
    match f
    case SourceIp => r.row.sourceIp
    case Disposition => r.row.policyEvaluated.disposition
    case Dkim => r.row.policyEvaluated.dkim
    case Spf => r.row.policyEvaluated.spf
  }

  /** One field of every record, in order. */
  function Column(recs: seq<Record>, f: Field): (c: seq<string>)
    ensures |c| == |recs|
    ensures forall i | 0 <= i < |recs| :: c[i] == FieldOf(recs[i], f)
  {
    if recs == [] then [] else Column(recs[..|recs| - 1], f) + [FieldOf(recs[|recs| - 1], f)]
  }

  /** The policy domain of every report, in order. */
  function Domains(reports: seq<Report>): (c: seq<string>)
    ensures |c| == |reports|
  {
    if reports == [] then []
    else Domains(reports[..|reports| - 1]) + [reports[|reports| - 1].policyPublished.domain]
  }

  function Begins(reports: seq<Report>): (c: seq<Time>)
    ensures |c| == |reports|
  {
    if reports == [] then []
    else Begins(reports[..|reports| - 1]) + [reports[|reports| - 1].reportMetadata.dateRange.begin]
  }

  function Ends(reports: seq<Report>): (c: seq<Time>)
    ensures |c| == |reports|
  {
    if reports == [] then []
    else Ends(reports[..|reports| - 1]) + [reports[|reports| - 1].reportMetadata.dateRange.end]
  }

  // ---------------------------------------------------------------------
  // Frequency maps

  /** `m[k]++` on a Go map: a missing key counts from zero. */
  function Bump(m: map<string, nat>, k: string): map<string, nat> {
    m[k := (if k in m then m[k] else 0) + 1]
  }

  /** The map that counting `xs` one by one produces. */
  function Tally(xs: seq<string>): map<string, nat> {
    if xs == [] then map[] else Bump(Tally(xs[..|xs| - 1]), xs[|xs| - 1])
  }

  lemma TallySnoc(xs: seq<string>, x: string)
    ensures Tally(xs + [x]) == Bump(Tally(xs), x)
  {
    assert (xs + [x])[..|xs|] == xs;
  }

  /** How often `k` occurs in `xs`. */
  function Occurrences(xs: seq<string>, k: string): nat {
    if xs == [] then 0
    else Occurrences(xs[..|xs| - 1], k) + (if xs[|xs| - 1] == k then 1 else 0)
  }

  /** The tally holds exactly the values that occur, each with its number of
      occurrences. */
  lemma {:induction false} TallyCounts(xs: seq<string>, k: string)
    ensures k in Tally(xs) <==> k in xs
    ensures k in Tally(xs) ==> Tally(xs)[k] == Occurrences(xs, k)
    ensures k !in Tally(xs) ==> Occurrences(xs, k) == 0
  {
    if xs != [] {
      var init := xs[..|xs| - 1];
      TallyCounts(init, k);
      assert xs == init + [xs[|xs| - 1]];
      assert k in xs <==> k in init || k == xs[|xs| - 1];
    }
  }

  ghost function Pick(m: map<string, nat>): (k: string)
    requires |m| > 0
    ensures k in m
  {
    var k :| k in m; k
  }

  /** The values of a map, added up. */
  ghost function SumValues(m: map<string, nat>): nat
    decreases |m|
  {
    if |m| == 0 then 0
    else
      var k := Pick(m);
      assert |m - {k}| == |m| - 1 by { assert m.Keys - {k} == (m - {k}).Keys; }
      m[k] + SumValues(m - {k})
  }

  /** Any key may be taken out first. */
  lemma {:induction false} SumValuesRemove(m: map<string, nat>, k: string)
    requires k in m
    ensures SumValues(m) == m[k] + SumValues(m - {k})
    decreases |m|
  {
    var j := Pick(m);
    assert |m - {j}| == |m| - 1 by { assert m.Keys - {j} == (m - {j}).Keys; }
    if j != k {
      assert |m - {k}| == |m| - 1 by { assert m.Keys - {k} == (m - {k}).Keys; }
      SumValuesRemove(m - {j}, k);
      SumValuesRemove(m - {k}, j);
      assert m - {j} - {k} == m - {k} - {j};
    }
  }

  lemma SumValuesBump(m: map<string, nat>, k: string)
    ensures SumValues(Bump(m, k)) == SumValues(m) + 1
  {
    var b := Bump(m, k);
    SumValuesRemove(b, k);
    assert b - {k} == m - {k};
    if k in m {
      SumValuesRemove(m, k);
    } else {
      assert m - {k} == m;
    }
  }

  /** Every counted value adds one: the tally's values sum to the length. */
  lemma {:induction false} TallySum(xs: seq<string>)
    ensures SumValues(Tally(xs)) == |xs|
  {
    if xs != [] {
      TallySum(xs[..|xs| - 1]);
      SumValuesBump(Tally(xs[..|xs| - 1]), xs[|xs| - 1]);
    }
  }

  // ---------------------------------------------------------------------
  // The covering date range

  /** The first of the earliest instants, as repeated `Before` tests keep it. */
  function Earliest(ts: seq<Time>): (e: Time)
    requires |ts| > 0
    ensures e in ts
    ensures forall t | t in ts :: Seconds(e) <= Seconds(t)
  {
    if |ts| == 1 then ts[0]
    else
      var init := ts[..|ts| - 1];
      var e := Earliest(init);
      assert ts == init + [ts[|ts| - 1]];
      if Before(ts[|ts| - 1], e) then ts[|ts| - 1] else e
  }

  /** The first of the latest instants, as repeated `After` tests keep it. */
  function Latest(ts: seq<Time>): (e: Time)
    requires |ts| > 0
    ensures e in ts
    ensures forall t | t in ts :: Seconds(t) <= Seconds(e)
  {
    if |ts| == 1 then ts[0]
    else
      var init := ts[..|ts| - 1];
      var e := Latest(init);
      assert ts == init + [ts[|ts| - 1]];
      if After(ts[|ts| - 1], e) then ts[|ts| - 1] else e
  }

  /** The zero range for no reports; otherwise the earliest begin and the
      latest end. */
  function CoveringRange(reports: seq<Report>): DateRange {
    if reports == [] then ZeroDateRange
    else DateRange(Earliest(Begins(reports)), Latest(Ends(reports)))
  }

  /** The range the pass starts from when there are reports: the first
      report's own. */
  function InitialRange(first: Report): DateRange {
    DateRange(first.reportMetadata.dateRange.begin, first.reportMetadata.dateRange.end)
  }

  /** What the outer loop body does to the range for one report. */
  function WidenRange(dr: DateRange, report: Report): DateRange {
    var b := report.reportMetadata.dateRange.begin;
    var e := report.reportMetadata.dateRange.end;
    DateRange(if Before(b, dr.begin) then b else dr.begin, if After(e, dr.end) then e else dr.end)
  }

  /** The range after the first `i` reports of the pass. */
  function RangeSoFar(reports: seq<Report>, i: nat): DateRange
    requires i <= |reports|
  {
    if i == 0 then (if reports == [] then ZeroDateRange else InitialRange(reports[0]))
    else CoveringRange(reports[..i])
  }

  lemma {:induction false} RangeSoFarStep(reports: seq<Report>, i: nat)
    requires i < |reports|
    ensures RangeSoFar(reports, i + 1) == WidenRange(RangeSoFar(reports, i), reports[i])
  {
    SnocReport(reports, i);
    var bs := Begins(reports[..i + 1]);
    var es := Ends(reports[..i + 1]);
    if i == 0 {
      assert bs == [reports[0].reportMetadata.dateRange.begin];
      assert es == [reports[0].reportMetadata.dateRange.end];
    } else {
      assert bs[..|bs| - 1] == Begins(reports[..i]);
      assert es[..|es| - 1] == Ends(reports[..i]);
    }
  }

  // ---------------------------------------------------------------------
  // Failed records

  predicate IsFailure(r: Record) {
    r.row.policyEvaluated.dkim != "pass" || r.row.policyEvaluated.spf != "pass"
  }

  /** The reason text as the loop builds it, before trimming. */
  function ReasonText(dkim: string, spf: string): string {
    var reason := if dkim != "pass" then "" + "DKIM:" + dkim + " " else "";
    if spf != "pass" then reason + "SPF:" + spf else reason
  }

  function FailureReason(dkim: string, spf: string): string {
    TrimSpace(ReasonText(dkim, spf))
  }

  /** The row of a record: its source, header-from domain and count, and a
      reason that is empty exactly when both checks passed. */
  function ToFailedRecord(r: Record): (f: FailedRecord)
    ensures f.sourceIp == r.row.sourceIp && f.domain == r.identifiers.headerFrom && f.count == r.row.count
    ensures |f.reason| > 0 <==> IsFailure(r)
  {
    FailureReasonEmpty(r.row.policyEvaluated.dkim, r.row.policyEvaluated.spf);
    FailedRecord(
      r.row.sourceIp,
      r.identifiers.headerFrom,
      r.row.count,
      FailureReason(r.row.policyEvaluated.dkim, r.row.policyEvaluated.spf))
  }

  /** The failing records, in order, turned into failure rows. */
  function FailedRecords(recs: seq<Record>): seq<FailedRecord> {
    if recs == [] then []
    else
      var r := recs[|recs| - 1];
      FailedRecords(recs[..|recs| - 1]) + (if IsFailure(r) then [ToFailedRecord(r)] else [])
  }

  /** The reason is empty exactly when both checks passed. */
  lemma FailureReasonEmpty(dkim: string, spf: string)
    ensures FailureReason(dkim, spf) == "" <==> dkim == "pass" && spf == "pass"
  {
    FailureReasonCases(dkim, spf);
    if dkim != "pass" {
      assert FailureReason(dkim, spf)[0] == 'D';
    } else if spf != "pass" {
      assert FailureReason(dkim, spf)[0] == 'S';
    }
  }

  /** The reason names each failing check with its result: after trimming,
      `DKIM:x SPF:y`, `DKIM:x` or `SPF:y`, where only white space at the end
      of the last result is dropped. */
  lemma FailureReasonCases(dkim: string, spf: string)
    ensures dkim != "pass" && spf != "pass" ==> FailureReason(dkim, spf) == "DKIM:" + dkim + " SPF:" + TrimRight(spf)
    ensures dkim != "pass" && spf == "pass" ==> FailureReason(dkim, spf) == "DKIM:" + TrimRight(dkim)
    ensures dkim == "pass" && spf != "pass" ==> FailureReason(dkim, spf) == "SPF:" + TrimRight(spf)
    ensures dkim == "pass" && spf == "pass" ==> FailureReason(dkim, spf) == ""
  {
    var text := ReasonText(dkim, spf);
    if dkim != "pass" && spf != "pass" {
      var a := "DKIM:" + dkim + " SPF:";
      assert text == a + spf;
      TrimLeftKeepsNonSpaceStart(text);
      TrimRightAfterNonSpace(a, spf);
    } else if dkim != "pass" {
      assert text == "DKIM:" + dkim + [' '];
      TrimLeftKeepsNonSpaceStart(text);
      TrimRightDropsSpace("DKIM:" + dkim, ' ');
      TrimRightAfterNonSpace("DKIM:", dkim);
    } else if spf != "pass" {
      assert text == "SPF:" + spf;
      TrimLeftKeepsNonSpaceStart(text);
      TrimRightAfterNonSpace("SPF:", spf);
    }
  }

  /** The failure rows of consecutive runs of records are concatenated: the
      list keeps the order of the input. */
  lemma {:induction false} FailedRecordsAppend(a: seq<Record>, b: seq<Record>)
    ensures FailedRecords(a + b) == FailedRecords(a) + FailedRecords(b)
    decreases |b|
  {
    if b == [] {
      assert a + b == a;
    } else {
      var b' := b[..|b| - 1];
      assert (a + b)[..|a + b| - 1] == a + b';
      FailedRecordsAppend(a, b');
    }
  }

  /** One record gives one row exactly when it fails, with its source,
      header-from domain and count unchanged. */
  lemma FailedRecordsOfOne(r: Record)
    ensures FailedRecords([r]) == if IsFailure(r) then [ToFailedRecord(r)] else []
    ensures IsFailure(r) ==>
              FailedRecords([r])[0].sourceIp == r.row.sourceIp
              && FailedRecords([r])[0].domain == r.identifiers.headerFrom
              && FailedRecords([r])[0].count == r.row.count
  {
    assert [r][..0] == [];
  }

  /** There are never more failure rows than records, and none when every
      record passes. */
  lemma {:induction false} FailedRecordsBound(recs: seq<Record>)
    ensures |FailedRecords(recs)| <= |recs|
    ensures (forall i | 0 <= i < |recs| :: !IsFailure(recs[i])) ==> FailedRecords(recs) == []
  {
    if recs != [] {
      var init := recs[..|recs| - 1];
      FailedRecordsBound(init);
      assert forall i | 0 <= i < |init| :: init[i] == recs[i];
    }
  }

  /** The record total is the number of records of each report added up,
      whatever their `count` fields say. */
  lemma {:induction false} AllRecordsCount(reports: seq<Report>)
    ensures |AllRecords(reports)| == RecordCount(reports)
  {
    if reports != [] {
      AllRecordsCount(reports[..|reports| - 1]);
    }
  }

  // ---------------------------------------------------------------------
  // The pass

  /** The per-record part of the aggregate: the record total, four
      frequency maps and the failure rows. */
  datatype RecordCounts = RecordCounts(
    total: nat,
    sources: map<string, nat>,
    dispositions: map<string, nat>,
    dkimResults: map<string, nat>,
    spfResults: map<string, nat>,
    failed: seq<FailedRecord>)

  /** What the inner loop body does with one record. */
  function AddRecord(c: RecordCounts, r: Record): RecordCounts {
    RecordCounts(
      c.total + 1,
      Bump(c.sources, r.row.sourceIp),
      Bump(c.dispositions, r.row.policyEvaluated.disposition),
      Bump(c.dkimResults, r.row.policyEvaluated.dkim),
      Bump(c.spfResults, r.row.policyEvaluated.spf),
      c.failed + (if IsFailure(r) then [ToFailedRecord(r)] else []))
  }

  function CountRecords(recs: seq<Record>): RecordCounts {
    if recs == [] then RecordCounts(0, map[], map[], map[], map[], [])
    else AddRecord(CountRecords(recs[..|recs| - 1]), recs[|recs| - 1])
  }

  /** The frequency map of a count that tallies the given field. */
  function CountOf(c: RecordCounts, f: Field): map<string, nat> {
    match f
    case SourceIp => c.sources
    case Disposition => c.dispositions
    case Dkim => c.dkimResults
    case Spf => c.spfResults
  }

  /** Adding a record bumps each field's map at that record's value. */
  lemma CountOfAdd(c: RecordCounts, r: Record, f: Field)
    ensures CountOf(AddRecord(c, r), f) == Bump(CountOf(c, f), FieldOf(r, f))
  {
  }

  /** Counting record by record tallies each column of the sequence. */
  lemma {:induction false} CountRecordsColumn(recs: seq<Record>, f: Field)
    ensures CountOf(CountRecords(recs), f) == Tally(Column(recs, f))
  {
    if recs != [] {
      var init, r := recs[..|recs| - 1], recs[|recs| - 1];
      CountRecordsColumn(init, f);
      CountOfAdd(CountRecords(init), r, f);
      assert Column(recs, f) == Column(init, f) + [FieldOf(r, f)];
      TallySnoc(Column(init, f), FieldOf(r, f));
    }
  }

  /** Counting record by record counts every record and keeps the failure
      rows of the whole sequence, in order. */
  lemma {:induction false} CountRecordsFailed(recs: seq<Record>)
    ensures CountRecords(recs).total == |recs|
    ensures CountRecords(recs).failed == FailedRecords(recs)
  {
    if recs != [] {
      CountRecordsFailed(recs[..|recs| - 1]);
    }
  }

  /** Counting record by record gives, field by field, the tallies of the
      columns and the failure rows of the whole sequence. */
  lemma CountRecordsMeaning(recs: seq<Record>)
    ensures CountRecords(recs).total == |recs|
    ensures CountRecords(recs).failed == FailedRecords(recs)
    ensures forall f: Field :: CountOf(CountRecords(recs), f) == Tally(Column(recs, f))
  {
    CountRecordsFailed(recs);
    forall f: Field
      ensures CountOf(CountRecords(recs), f) == Tally(Column(recs, f))
    {
      CountRecordsColumn(recs, f);
    }
  }

  lemma CountRecordsSnoc(processed: seq<Record>, r: Record)
    ensures CountRecords(processed + [r]) == AddRecord(CountRecords(processed), r)
  {
    assert (processed + [r])[..|processed|] == processed;
  }

  lemma CountRecordsStep(prior: seq<Record>, records: seq<Record>, j: nat)
    requires j < |records|
    ensures CountRecords(prior + records[..j + 1]) == AddRecord(CountRecords(prior + records[..j]), records[j])
  {
    assert prior + records[..j + 1] == (prior + records[..j]) + [records[j]];
    CountRecordsSnoc(prior + records[..j], records[j]);
  }

  lemma PrefixEnds(prior: seq<Record>, records: seq<Record>)
    ensures prior + records[..0] == prior
    ensures prior + records[..|records|] == prior + records
  {
    assert records[..|records|] == records;
  }

  lemma SnocReport(reports: seq<Report>, i: nat)
    requires i < |reports|
    ensures AllRecords(reports[..i + 1]) == AllRecords(reports[..i]) + reports[i].records
    ensures Domains(reports[..i + 1]) == Domains(reports[..i]) + [reports[i].policyPublished.domain]
    ensures Begins(reports[..i + 1]) == Begins(reports[..i]) + [reports[i].reportMetadata.dateRange.begin]
    ensures Ends(reports[..i + 1]) == Ends(reports[..i]) + [reports[i].reportMetadata.dateRange.end]
  {
    assert reports[..i + 1][..i] == reports[..i];
  }

  /** The failure row the inner loop appends for a record that failed DKIM
      or SPF: the reason text is built piece by piece and then trimmed. */
  method FailureRow(record: Record) returns (row: FailedRecord)
    requires IsFailure(record)
    ensures row == ToFailedRecord(record)
  {
    var reason := "";
    if record.row.policyEvaluated.dkim != "pass" {
      reason := reason + "DKIM:" + record.row.policyEvaluated.dkim + " ";
    }
    if record.row.policyEvaluated.spf != "pass" {
      reason := reason + "SPF:" + record.row.policyEvaluated.spf;
    }
    assert reason == ReasonText(record.row.policyEvaluated.dkim, record.row.policyEvaluated.spf);
    row := FailedRecord(record.row.sourceIp, record.identifiers.headerFrom, record.row.count, TrimSpace(reason));
  }

  /** The inner loop of `AggregateReports`: it takes one report's records,
      in order, into the counts gathered from the records `prior` before
      them. */
  method CountReportRecords(counts: RecordCounts, records: seq<Record>, ghost prior: seq<Record>)
    returns (out: RecordCounts)
    requires counts == CountRecords(prior)
    ensures out == CountRecords(prior + records)
  {
    var totalRecords, sources, dispositions, dkimResults, spfResults, failedRecords :=
      counts.total, counts.sources, counts.dispositions, counts.dkimResults, counts.spfResults, counts.failed;
    PrefixEnds(prior, records);
    for j := 0 to |records|
      invariant RecordCounts(totalRecords, sources, dispositions, dkimResults, spfResults, failedRecords)
                == CountRecords(prior + records[..j])
    {
      var record := records[j];
      ghost var before := CountRecords(prior + records[..j]);
      CountRecordsStep(prior, records, j);
      totalRecords := totalRecords + 1;
      sources := Bump(sources, record.row.sourceIp);
      dispositions := Bump(dispositions, record.row.policyEvaluated.disposition);
      dkimResults := Bump(dkimResults, record.row.policyEvaluated.dkim);
      spfResults := Bump(spfResults, record.row.policyEvaluated.spf);
      if record.row.policyEvaluated.dkim != "pass" || record.row.policyEvaluated.spf != "pass" {
        var row := FailureRow(record);
        failedRecords := failedRecords + [row];
      }
    }
    out := RecordCounts(totalRecords, sources, dispositions, dkimResults, spfResults, failedRecords);
  }

  /** `AggregateReports`.  Each field of the result is the specification
      function of the whole input; the lemmas below say what those are. */
  method AggregateReports(reports: seq<Report>) returns (aggr: AggregatedReport)
    ensures aggr.totalReports == |reports|
    ensures aggr.totalRecords == |AllRecords(reports)|
    ensures aggr.dateRange == CoveringRange(reports)
    ensures aggr.domains == Tally(Domains(reports))
    ensures forall f: Field :: Counted(aggr, f) == Tally(Column(AllRecords(reports), f))
    ensures aggr.failedRecords == FailedRecords(AllRecords(reports))
  {
    var dateRange := ZeroDateRange;
    var domains := map[];
    var counts := RecordCounts(0, map[], map[], map[], map[], []);
    if |reports| > 0 {
      dateRange := DateRange(reports[0].reportMetadata.dateRange.begin, reports[0].reportMetadata.dateRange.end);
    }
    for i := 0 to |reports|
      invariant dateRange == RangeSoFar(reports, i)
      invariant domains == Tally(Domains(reports[..i]))
      invariant counts == CountRecords(AllRecords(reports[..i]))
    {
      var report := reports[i];
      SnocReport(reports, i);
      RangeSoFarStep(reports, i);
      TallySnoc(Domains(reports[..i]), report.policyPublished.domain);
      if Before(report.reportMetadata.dateRange.begin, dateRange.begin) {
        dateRange := dateRange.(begin := report.reportMetadata.dateRange.begin);
      }
      if After(report.reportMetadata.dateRange.end, dateRange.end) {
        dateRange := dateRange.(end := report.reportMetadata.dateRange.end);
      }
      domains := Bump(domains, report.policyPublished.domain);
      counts := CountReportRecords(counts, report.records, AllRecords(reports[..i]));
    }
    assert reports[..|reports|] == reports;
    CountRecordsMeaning(AllRecords(reports));
    aggr := AggregatedReport(
      |reports|, counts.total, dateRange,
      domains, counts.sources, counts.dispositions, counts.dkimResults, counts.spfResults,
      counts.failed);
    CountedFromCounts(aggr, counts);
  }

  lemma CountedFromCounts(aggr: AggregatedReport, c: RecordCounts)
    requires aggr.sources == c.sources && aggr.dispositions == c.dispositions
    requires aggr.dkimResults == c.dkimResults && aggr.spfResults == c.spfResults
    ensures forall f: Field :: Counted(aggr, f) == CountOf(c, f)
  {
  }

  // ---------------------------------------------------------------------
  // What the result means

  /** The frequency map of the result that tallies the given field. */
  function Counted(aggr: AggregatedReport, f: Field): map<string, nat> {
    match f
    case SourceIp => aggr.sources
    case Disposition => aggr.dispositions
    case Dkim => aggr.dkimResults
    case Spf => aggr.spfResults
  }

  /** The counts of the result: totals, the value in each frequency map as
      the number of occurrences, maps that sum to the totals, and the
      covering range. */
  lemma AggregateMeaning(reports: seq<Report>, aggr: AggregatedReport, f: Field, k: string)
    requires aggr.totalReports == |reports|
    requires aggr.totalRecords == |AllRecords(reports)|
    requires aggr.domains == Tally(Domains(reports))
    requires Counted(aggr, f) == Tally(Column(AllRecords(reports), f))
    requires aggr.dateRange == CoveringRange(reports)
    ensures aggr.totalRecords == RecordCount(reports)
    ensures SumValues(aggr.domains) == aggr.totalReports
    ensures SumValues(Counted(aggr, f)) == aggr.totalRecords
    ensures k in aggr.domains ==> aggr.domains[k] == Occurrences(Domains(reports), k)
    ensures k !in aggr.domains ==> Occurrences(Domains(reports), k) == 0
    ensures k in Counted(aggr, f) ==> Counted(aggr, f)[k] == Occurrences(Column(AllRecords(reports), f), k)
    ensures k !in Counted(aggr, f) ==> Occurrences(Column(AllRecords(reports), f), k) == 0
    ensures reports != [] ==> forall t | t in Begins(reports) :: Seconds(aggr.dateRange.begin) <= Seconds(t)
    ensures reports != [] ==> forall t | t in Ends(reports) :: Seconds(t) <= Seconds(aggr.dateRange.end)
  {
    AllRecordsCount(reports);
    TallySum(Domains(reports));
    TallySum(Column(AllRecords(reports), f));
    TallyCounts(Domains(reports), k);
    TallyCounts(Column(AllRecords(reports), f), k);
  }

  /** No reports: zero totals, five empty maps, no failure rows and the
      zero date range. */
  lemma AggregateOfNothing(aggr: AggregatedReport)
    requires aggr.totalReports == 0
    requires aggr.totalRecords == |AllRecords([])|
    requires aggr.dateRange == CoveringRange([])
    requires aggr.domains == Tally(Domains([]))
    requires forall f: Field :: Counted(aggr, f) == Tally(Column(AllRecords([]), f))
    requires aggr.failedRecords == FailedRecords(AllRecords([]))
    ensures aggr.totalReports == 0 && aggr.totalRecords == 0 && aggr.dateRange == ZeroDateRange
    ensures aggr.domains == map[] && aggr.sources == map[] && aggr.dispositions == map[]
    ensures aggr.dkimResults == map[] && aggr.spfResults == map[]
    ensures aggr.failedRecords == []
  {
    assert Counted(aggr, SourceIp) == map[];
    assert Counted(aggr, Disposition) == map[];
    assert Counted(aggr, Dkim) == map[];
    assert Counted(aggr, Spf) == map[];
  }
}
