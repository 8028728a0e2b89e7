/** Loading every report file of the configuration directory, and ordering
    reports newest first.  The directory listing and the file system are
    given as values; `filepath.Clean` and `filepath.IsAbs` are given as
    functions the loader consults, since only their results matter here. */
module Storage {
  import opened Wrappers
  import opened Text
  import opened Decimal
  import opened Dmarc
  import opened Parser

  /** One entry of `os.ReadDir`: its name and whether it is a directory. */
  datatype DirEntry = DirEntry(name: string, isDir: bool)

  /** The library calls and the files the loader reaches through them. */
  datatype Env = Env(
    clean: string -> string,      // filepath.Clean
    isAbs: string -> bool,        // filepath.IsAbs
    file: string -> FileView,     // os.Stat and os.ReadFile of a path
    decode: Decoder)              // the XML decoder

  /** `ReportLoader`: the directory the reports are read from. */
  datatype ReportLoader = ReportLoader(configDir: string)

  // ---------------------------------------------------------------------
  // The file name check

  /** A name that the loader refuses to open: cleaning changes it, or the
      cleaned name is absolute or holds `..`, `/` or `\`.  The `..` test is
      on the substring, so names such as `a..b` are refused too. */
  predicate IsSuspicious(env: Env, name: string)
    ensures Contains(name, "..") || Contains(name, "/") || Contains(name, "\\") ==> IsSuspicious(env, name)
    ensures env.isAbs(name) ==> IsSuspicious(env, name)
  {
    var cleanPath := env.clean(name);
    cleanPath != name || env.isAbs(cleanPath)
    || Contains(cleanPath, "..") || Contains(cleanPath, "/") || Contains(cleanPath, "\\")
  }

  /** Which library `Clean` is makes no difference for names that hold a
      traversal or a separator: they are refused either way. */
  lemma SuspiciousNames(env: Env)
    ensures IsSuspicious(env, "../../etc/passwd")
    ensures IsSuspicious(env, "a..b")
    ensures IsSuspicious(env, "x/y")
    ensures IsSuspicious(env, "a\\b")
  {
    ContainsAt("../../etc/passwd", 0, "..");
    assert "a..b"[1..3] == "..";
    ContainsAt("a..b", 1, "..");
    assert "x/y"[1..2] == "/";
    ContainsAt("x/y", 1, "/");
    assert "a\\b"[1..2] == "\\";
    ContainsAt("a\\b", 1, "\\");
  }

  /** The check in terms of characters: a name passes exactly when
      `Clean` leaves it unchanged, it is not absolute, and it has no two dots
      in a row, no `/` and no `\`. */
  lemma IsSuspiciousMeaning(env: Env, name: string)
    ensures !IsSuspicious(env, name) <==>
              env.clean(name) == name && !env.isAbs(name)
              && (forall i: nat | i + 1 < |name| :: !(name[i] == '.' && name[i + 1] == '.'))
              && (forall i: nat | i < |name| :: name[i] != '/' && name[i] != '\\')
  {
    ContainsMeaning(name, "..");
    ContainsMeaning(name, "/");
    ContainsMeaning(name, "\\");
    OccursPair(name, '.', '.');
    OccursSingle(name, '/');
    OccursSingle(name, '\\');
  }

  lemma OccursPair(s: string, c: char, d: char)
    ensures (exists i: nat :: OccursAt(s, [c, d], i)) <==> exists i: nat | i + 1 < |s| :: s[i] == c && s[i + 1] == d
  {
    if exists i: nat | i + 1 < |s| :: s[i] == c && s[i + 1] == d {
      var i: nat :| i + 1 < |s| && s[i] == c && s[i + 1] == d;
      assert s[i..i + 2] == [c, d];
      assert OccursAt(s, [c, d], i);
    }
    if exists i: nat :: OccursAt(s, [c, d], i) {
      var i: nat :| OccursAt(s, [c, d], i);
      assert s[i..i + 2][0] == s[i] && s[i..i + 2][1] == s[i + 1];
    }
  }

  lemma OccursSingle(s: string, c: char)
    ensures (exists i: nat :: OccursAt(s, [c], i)) <==> exists i: nat | i < |s| :: s[i] == c
  {
    if exists i: nat | i < |s| :: s[i] == c {
      var i: nat :| i < |s| && s[i] == c;
      assert s[i..i + 1] == [c];
      assert OccursAt(s, [c], i);
    }
    if exists i: nat :: OccursAt(s, [c], i) {
      var i: nat :| OccursAt(s, [c], i);
      assert s[i..i + 1][0] == s[i];
    }
  }

  /** `filepath.Join(dir, name)`: the non-empty parts joined by `/`, then
      cleaned. */
  function JoinPath(env: Env, dir: string, name: string): string {
    if dir == "" then (if name == "" then "" else env.clean(name))
    else env.clean(dir + "/" + name)
  }

  // ---------------------------------------------------------------------
  // One entry at a time

  /** Why a file was not loaded.  The loader collects these as message
      lines; the message of each is `Message()`. */
  datatype FileFailure =
    | SuspiciousName(name: string)
    | ParseFailed(name: string, error: ParseError)
  {
    function Message(): string {
      match this
      case SuspiciousName(n) => "Security warning: skipping suspicious filename: " + n
      case ParseFailed(n, e) => "Error parsing " + n + ": " + e.Message()
    }
  }

  /** The message lines of a run of failures, in order. */
  function Messages(fs: seq<FileFailure>): (ms: seq<string>)
    ensures |ms| == |fs|
    ensures forall i | 0 <= i < |fs| :: ms[i] == fs[i].Message()
  {
    seq(|fs|, i requires 0 <= i < |fs| => fs[i].Message())
  }

  /** What the loop does with one entry: skip a directory, refuse a
      suspicious name, or parse the file. */
  datatype Outcome = Skipped | Refused(failure: FileFailure) | Parsed(report: Report)

  function Examine(env: Env, dir: string, entry: DirEntry): (o: Outcome)
    ensures entry.isDir <==> o.Skipped?
    ensures !entry.isDir && IsSuspicious(env, entry.name) ==> o == Refused(SuspiciousName(entry.name))
    ensures o.Parsed? ==> IsValid(o.report) && !IsSuspicious(env, entry.name)
  {
    if entry.isDir then Skipped
    else if IsSuspicious(env, entry.name) then Refused(SuspiciousName(entry.name))
    else OpenAndParse(env, dir, entry.name)
  }

  /** A file whose name passed the check: `ParseDMARCReport` on the joined
      path, and its error, if any, as a message naming the file. */
  function OpenAndParse(env: Env, dir: string, name: string): (o: Outcome)
    ensures o.Refused? ==> o.failure.ParseFailed? && o.failure.name == name
    ensures o.Parsed? ==> IsValid(o.report)
    ensures o.Refused? || o.Parsed?
  {
    var path := JoinPath(env, dir, name);
    match Parse(path, env.file(path), env.decode)
    case Err(e) => Refused(ParseFailed(name, e))
    case Ok(report) => Parsed(report)
  }

  /** The reports and messages gathered from the entries, in order. */
  datatype Gathered = Gathered(reports: seq<Report>, errors: seq<FileFailure>)

  function Take(g: Gathered, o: Outcome): Gathered {
    match o
    case Skipped => g
    case Refused(f) => g.(errors := g.errors + [f])
    case Parsed(r) => g.(reports := g.reports + [r])
  }

  /** The outcomes of the entries, in listing order. */
  function Outcomes(env: Env, dir: string, entries: seq<DirEntry>): (os: seq<Outcome>)
    ensures |os| == |entries|
  {
    if entries == [] then []
    else Outcomes(env, dir, entries[..|entries| - 1]) + [Examine(env, dir, entries[|entries| - 1])]
  }

  /** The reports and messages of a run of outcomes, in order. */
  function Collect(os: seq<Outcome>): Gathered {
    if os == [] then Gathered([], []) else Take(Collect(os[..|os| - 1]), os[|os| - 1])
  }

  /** What the loop has gathered after the given entries. */
  function Gather(env: Env, dir: string, entries: seq<DirEntry>): Gathered {
    Collect(Outcomes(env, dir, entries))
  }

  /** The number of entries that are not directories. */
  function FileCount(entries: seq<DirEntry>): nat {
    if entries == [] then 0
    else FileCount(entries[..|entries| - 1]) + (if entries[|entries| - 1].isDir then 0 else 1)
  }

  /** The number of outcomes that are not `Skipped`. */
  function Decided(os: seq<Outcome>): nat {
    if os == [] then 0 else Decided(os[..|os| - 1]) + (if os[|os| - 1].Skipped? then 0 else 1)
  }

  lemma OutcomesSnoc(env: Env, dir: string, entries: seq<DirEntry>, e: DirEntry)
    ensures Outcomes(env, dir, entries + [e]) == Outcomes(env, dir, entries) + [Examine(env, dir, e)]
    ensures FileCount(entries + [e]) == FileCount(entries) + (if e.isDir then 0 else 1)
  {
    assert (entries + [e])[..|entries|] == entries;
  }

  lemma CollectSnoc(os: seq<Outcome>, o: Outcome)
    ensures Collect(os + [o]) == Take(Collect(os), o)
    ensures Decided(os + [o]) == Decided(os) + (if o.Skipped? then 0 else 1)
  {
    assert (os + [o])[..|os|] == os;
  }

  lemma GatherSnoc(env: Env, dir: string, entries: seq<DirEntry>, e: DirEntry)
    ensures Gather(env, dir, entries + [e]) == Take(Gather(env, dir, entries), Examine(env, dir, e))
    ensures FileCount(entries + [e]) == FileCount(entries) + (if e.isDir then 0 else 1)
  {
    OutcomesSnoc(env, dir, entries, e);
    CollectSnoc(Outcomes(env, dir, entries), Examine(env, dir, e));
  }

  /** Every outcome but `Skipped` adds one report or one message. */
  lemma {:induction false} CollectAccounts(os: seq<Outcome>)
    ensures |Collect(os).reports| + |Collect(os).errors| == Decided(os)
  {
    if os != [] {
      CollectAccounts(os[..|os| - 1]);
    }
  }

  /** Exactly the directories are skipped. */
  lemma {:induction false} OutcomesDecided(env: Env, dir: string, entries: seq<DirEntry>)
    ensures Decided(Outcomes(env, dir, entries)) == FileCount(entries)
  {
    if entries != [] {
      var init, e := entries[..|entries| - 1], entries[|entries| - 1];
      OutcomesDecided(env, dir, init);
      assert entries == init + [e];
      OutcomesSnoc(env, dir, init, e);
      CollectSnoc(Outcomes(env, dir, init), Examine(env, dir, e));
    }
  }

  /** Every file is a report or a message, and no directory is either. */
  lemma GatherAccounts(env: Env, dir: string, entries: seq<DirEntry>)
    ensures |Gather(env, dir, entries).reports| + |Gather(env, dir, entries).errors| == FileCount(entries)
  {
    CollectAccounts(Outcomes(env, dir, entries));
    OutcomesDecided(env, dir, entries);
  }

  lemma {:induction false} CollectAppend(p: seq<Outcome>, q: seq<Outcome>)
    ensures Collect(p + q).reports == Collect(p).reports + Collect(q).reports
    ensures Collect(p + q).errors == Collect(p).errors + Collect(q).errors
    decreases |q|
  {
    if q == [] {
      assert p + q == p;
    } else {
      var q', o := q[..|q| - 1], q[|q| - 1];
      assert p + q == (p + q') + [o];
      assert q == q' + [o];
      CollectSnoc(p + q', o);
      CollectSnoc(q', o);
      CollectAppend(p, q');
    }
  }

  lemma {:induction false} OutcomesAppend(env: Env, dir: string, a: seq<DirEntry>, b: seq<DirEntry>)
    ensures Outcomes(env, dir, a + b) == Outcomes(env, dir, a) + Outcomes(env, dir, b)
    decreases |b|
  {
    if b == [] {
      assert a + b == a;
    } else {
      var b', e := b[..|b| - 1], b[|b| - 1];
      assert a + b == (a + b') + [e];
      assert b == b' + [e];
      OutcomesSnoc(env, dir, a + b', e);
      OutcomesSnoc(env, dir, b', e);
      OutcomesAppend(env, dir, a, b');
    }
  }

  /** Entries are taken in the order of the listing: the reports and the
      messages of two parts of a listing are those of the first part
      followed by those of the second. */
  lemma GatherAppend(env: Env, dir: string, a: seq<DirEntry>, b: seq<DirEntry>)
    ensures Gather(env, dir, a + b).reports == Gather(env, dir, a).reports + Gather(env, dir, b).reports
    ensures Gather(env, dir, a + b).errors == Gather(env, dir, a).errors + Gather(env, dir, b).errors
  {
    OutcomesAppend(env, dir, a, b);
    CollectAppend(Outcomes(env, dir, a), Outcomes(env, dir, b));
  }

  /** Every report gathered passed validation. */
  lemma {:induction false} GatheredAreValid(env: Env, dir: string, entries: seq<DirEntry>)
    ensures forall i | 0 <= i < |Gather(env, dir, entries).reports| :: IsValid(Gather(env, dir, entries).reports[i])
  {
    if entries != [] {
      var init, e := entries[..|entries| - 1], entries[|entries| - 1];
      GatheredAreValid(env, dir, init);
      assert entries == init + [e];
      GatherSnoc(env, dir, init, e);
    }
  }

  /** `os.ReadDir` results other than files with names that pass the check
      never reach the file system: changing the files leaves the outcome of
      a directory or a suspicious name as it was. */
  lemma SuspiciousNeverOpened(env: Env, dir: string, entry: DirEntry, files: string -> FileView)
    requires entry.isDir || IsSuspicious(env, entry.name)
    ensures Examine(env.(file := files), dir, entry) == Examine(env, dir, entry)
    ensures !entry.isDir ==> Examine(env, dir, entry) == Refused(SuspiciousName(entry.name))
  {
  }

  // ---------------------------------------------------------------------
  // The result

  /** The errors of `LoadReports`. */
  datatype LoadError =
    | ReadDirFailed(dir: string, detail: string)
    | NoReportsIn(dir: string)
    | NoReports
    | AllFailed(failures: seq<FileFailure>)
  {
    function Message(): string {
      match this
      case ReadDirFailed(d, detail) => "failed to read directory " + d + ": " + detail
      case NoReportsIn(d) => "no DMARC reports found in " + d
      case NoReports => "no DMARC reports found"
      case AllFailed(fs) => "failed to parse any reports: " + Join(Messages(fs), "; ")
    }

    /** `errors.Is(err, ErrNoReports)`: the empty directory wraps it. */
    predicate IsNoReports() {
      NoReportsIn? || NoReports?
    }
  }

  /** The all-failed error names every failure, after its fixed prefix. */
  lemma AllFailedNamesEach(fs: seq<FileFailure>, i: nat)
    requires i < |fs|
    ensures HasPrefix(AllFailed(fs).Message(), "failed to parse any reports: ")
    ensures Contains(AllFailed(fs).Message(), fs[i].Message())
  {
    var pre := "failed to parse any reports: ";
    var ms := Messages(fs);
    assert ms[i] == fs[i].Message();
    JoinContains(ms, "; ", i);
    ContainsInRight(pre, Join(ms, "; "), ms[i]);
    assert (pre + Join(ms, "; "))[..|pre|] == pre;
  }

  /** The reports, and the lines the loader prints when some files failed. */
  datatype Loaded = Loaded(reports: seq<Report>, warnings: seq<string>)

  function Warnings(successCount: nat, failureCount: nat, errors: seq<FileFailure>): (w: seq<string>)
    ensures w == [] <==> errors == []
    ensures errors != [] ==> |w| == |errors| + 1
  {
    if |errors| > 0 then
      ["Warning: " + FormatInt(failureCount) + " of " + FormatInt(successCount + failureCount) + " files failed to parse"]
      + Messages(errors)
    else []
  }

  /** `LoadReports` on what `os.ReadDir` returned for the directory. */
  function Load(env: Env, dir: string, listing: Result<seq<DirEntry>, string>): (r: Result<Loaded, LoadError>)
    ensures r.Ok? ==> listing.Ok? && r.value.reports != []
    ensures r.Err? && r.error.AllFailed? ==> r.error.failures != []
  {
    match listing
    case Err(detail) => Err(ReadDirFailed(dir, detail))
    case Ok(entries) =>
      if entries == [] then Err(NoReportsIn(dir))
      else
        var g := Gather(env, dir, entries);
        if |g.reports| == 0 then
          if |g.errors| > 0 then Err(AllFailed(g.errors)) else Err(NoReports)
        else Ok(Loaded(g.reports, Warnings(|g.reports|, |g.errors|, g.errors)))
  }

  /** The body of the loop of `LoadReports` for one entry; each early
      return is a `continue` of the loop. */
  method TakeEntry(env: Env, dir: string, file: DirEntry,
                   reports: seq<Report>, parseErrors: seq<FileFailure>, successCount: nat, failureCount: nat)
    returns (reports': seq<Report>, parseErrors': seq<FileFailure>, successCount': nat, failureCount': nat)
    requires successCount == |reports| && failureCount == |parseErrors|
    ensures Gathered(reports', parseErrors') == Take(Gathered(reports, parseErrors), Examine(env, dir, file))
    ensures successCount' == |reports'| && failureCount' == |parseErrors'|
    ensures successCount' + failureCount' == successCount + failureCount + (if file.isDir then 0 else 1)
  {
    reports', parseErrors', successCount', failureCount' := reports, parseErrors, successCount, failureCount;
    if file.isDir {
      return;
    }
    var filename := file.name;
    if IsSuspicious(env, filename) {
      parseErrors' := parseErrors' + [SuspiciousName(filename)];
      failureCount' := failureCount' + 1;
      return;
    }
    var filePath := JoinPath(env, dir, filename);
    var parsed := ParseDMARCReport(filePath, env.file(filePath), env.decode);
    if parsed.Err? {
      parseErrors' := parseErrors' + [ParseFailed(filename, parsed.error)];
      failureCount' := failureCount' + 1;
      return;
    }
    reports' := reports' + [parsed.value];
    successCount' := successCount' + 1;
  }

  /** The loop of `LoadReports` over the listing, with its two counters. */
  method ScanEntries(env: Env, dir: string, files: seq<DirEntry>)
    returns (reports: seq<Report>, parseErrors: seq<FileFailure>, successCount: nat, failureCount: nat)
    ensures Gathered(reports, parseErrors) == Gather(env, dir, files)
    ensures successCount == |reports| && failureCount == |parseErrors|
    ensures successCount + failureCount == FileCount(files)
  {
    reports, parseErrors := [], [];
    successCount, failureCount := 0, 0;
    for i := 0 to |files|
      invariant Gathered(reports, parseErrors) == Gather(env, dir, files[..i])
      invariant successCount == |reports| && failureCount == |parseErrors|
      invariant successCount + failureCount == FileCount(files[..i])
    {
      GatherSnoc(env, dir, files[..i], files[i]);
      assert files[..i + 1] == files[..i] + [files[i]];
      reports, parseErrors, successCount, failureCount :=
        TakeEntry(env, dir, files[i], reports, parseErrors, successCount, failureCount);
    }
    assert files[..|files|] == files;
  }

  /** `LoadReports`: read the listing, take every entry, and decide the
      result from what was gathered. */
  method LoadReports(loader: ReportLoader, env: Env, listing: Result<seq<DirEntry>, string>)
    returns (r: Result<Loaded, LoadError>)
    ensures r == Load(env, loader.configDir, listing)
  {
    if listing.Err? {
      return Err(ReadDirFailed(loader.configDir, listing.error));
    }
    var files := listing.value;
    if |files| == 0 {
      return Err(NoReportsIn(loader.configDir));
    }
    var reports, parseErrors, successCount, failureCount := ScanEntries(env, loader.configDir, files);
    if |reports| == 0 {
      if |parseErrors| > 0 {
        return Err(AllFailed(parseErrors));
      }
      return Err(NoReports);
    }
    return Ok(Loaded(reports, Warnings(successCount, failureCount, parseErrors)));
  }

  /** The result policy.
      - An empty directory is `ErrNoReports` wrapped with the directory.
      - A listing of directories only is `ErrNoReports` itself.
      - Without a single report, the failure of every file is kept, in
        listing order, in one `AllFailed` error.
      - With one report or more the result is the reports of the files that
        parsed, in listing order, whatever else failed. */
  lemma LoadPolicy(env: Env, dir: string, entries: seq<DirEntry>)
    ensures entries == [] ==> Load(env, dir, Ok(entries)) == Err(NoReportsIn(dir))
    ensures Load(env, dir, Ok(entries)) == Err(NoReports) <==> entries != [] && FileCount(entries) == 0
    ensures Load(env, dir, Ok(entries)).Err? ==> Load(env, dir, Ok(entries)).error.IsNoReports()
                                                 || Load(env, dir, Ok(entries)).error.AllFailed?
    ensures Load(env, dir, Ok(entries)).Ok? <==> |Gather(env, dir, entries).reports| > 0
    ensures entries != [] && |Gather(env, dir, entries).reports| == 0 && |Gather(env, dir, entries).errors| > 0 ==>
              Load(env, dir, Ok(entries)) == Err(AllFailed(Gather(env, dir, entries).errors))
              && |Gather(env, dir, entries).errors| == FileCount(entries)
    ensures Load(env, dir, Ok(entries)).Ok? ==>
              Load(env, dir, Ok(entries)).value.reports == Gather(env, dir, entries).reports
              && |Load(env, dir, Ok(entries)).value.reports| <= FileCount(entries)
              && forall i | 0 <= i < |Load(env, dir, Ok(entries)).value.reports| ::
                   IsValid(Load(env, dir, Ok(entries)).value.reports[i])
  {
    GatherAccounts(env, dir, entries);
    GatheredAreValid(env, dir, entries);
  }

  /** Warnings are printed exactly when some file failed, and then every
      message of a failed file is printed after the summary line. */
  lemma WarningsMeaning(env: Env, dir: string, entries: seq<DirEntry>)
    requires Load(env, dir, Ok(entries)).Ok?
    ensures var w := Load(env, dir, Ok(entries)).value.warnings;
            var g := Gather(env, dir, entries);
            (w == [] <==> g.errors == [])
            && (w != [] ==> w[1..] == Messages(g.errors))
            && (w != [] ==> w[0] == "Warning: " + FormatInt(|g.errors|) + " of " + FormatInt(FileCount(entries))
                                    + " files failed to parse")
  {
    var g := Gather(env, dir, entries);
    var w := Warnings(|g.reports|, |g.errors|, g.errors);
    assert Load(env, dir, Ok(entries)).value.warnings == w;
    GatherAccounts(env, dir, entries);
    if g.errors != [] {
      assert w[1..] == Messages(g.errors);
    }
  }

  // ---------------------------------------------------------------------
  // SortReportsByDate

  /** What the comparison of `SortReportsByDate` looks at: the internal
      seconds of the report's `Begin`. */
  function BeginKey(r: Report): int {
    Seconds(r.reportMetadata.dateRange.begin)
  }

  /** Newest first: no report begins after one placed before it. */
  predicate NewestFirst(s: seq<Report>) {
    forall i, j | 0 <= i < j < |s| :: !After(s[j].reportMetadata.dateRange.begin, s[i].reportMetadata.dateRange.begin)
  }

  /** `s` with the elements at `i` and `j` exchanged. */
  function Swapped<T>(s: seq<T>, i: nat, j: nat): (r: seq<T>)
    requires i < |s| && j < |s|
    ensures |r| == |s| && r[i] == s[j] && r[j] == s[i]
    ensures forall k | 0 <= k < |s| && k != i && k != j :: r[k] == s[k]
  {
    s[i := s[j]][j := s[i]]
  }

  /** The position of a newest report among `a[lo..]`: the first one with
      the latest `Begin`. */
  method NewestFrom(a: array<Report>, lo: nat) returns (m: nat)
    requires lo < a.Length
    ensures lo <= m < a.Length
    ensures forall q | lo <= q < a.Length :: BeginKey(a[q]) <= BeginKey(a[m])
    ensures forall q | lo <= q < m :: BeginKey(a[q]) < BeginKey(a[m])
  {
    m := lo;
    for j := lo + 1 to a.Length
      invariant lo <= m < j
      invariant forall q | lo <= q < j :: BeginKey(a[q]) <= BeginKey(a[m])
      invariant forall q | lo <= q < m :: BeginKey(a[q]) < BeginKey(a[m])
    {
      if BeginKey(a[j]) > BeginKey(a[m]) {
        m := j;
      }
    }
  }

  /** The first `i` places hold the `i` newest reports, newest first. */
  predicate PlacedNewest(s: seq<Report>, i: nat)
    requires i <= |s|
  {
    (forall p, q | 0 <= p < q < i :: BeginKey(s[p]) >= BeginKey(s[q]))
    && (forall p, q | 0 <= p < i <= q < |s| :: BeginKey(s[p]) >= BeginKey(s[q]))
  }

  /** Swapping a newest remaining report into place `i` extends the placed
      prefix by one, and keeps the same reports. */
  lemma PlaceNext(s: seq<Report>, i: nat, m: nat)
    requires i <= m < |s| && PlacedNewest(s, i)
    requires forall q | i <= q < |s| :: BeginKey(s[q]) <= BeginKey(s[m])
    ensures PlacedNewest(Swapped(s, i, m), i + 1)
    ensures multiset(Swapped(s, i, m)) == multiset(s)
  {
    var t := Swapped(s, i, m);
    assert forall q | i < q < |s| :: BeginKey(t[q]) <= BeginKey(t[i]) by {
      forall q | i < q < |s| ensures BeginKey(t[q]) <= BeginKey(t[i]) {
        if q == m {
          assert t[q] == s[i];
        } else {
          assert t[q] == s[q];
        }
      }
    }
  }

  lemma PlacedAll(s: seq<Report>)
    requires PlacedNewest(s, |s|)
    ensures NewestFirst(s)
  {
  }

  /** One step of the selection: a newest report among `a[i..]` is
      swapped into place `i`. */
  method PlaceNewest(a: array<Report>, i: nat)
    requires i < a.Length && PlacedNewest(a[..], i)
    modifies a
    ensures PlacedNewest(a[..], i + 1)
    ensures multiset(a[..]) == multiset(old(a[..]))
  {
    var m := NewestFrom(a, i);
    ghost var before := a[..];
    a[i], a[m] := a[m], a[i];
    assert a[..] == Swapped(before, i, m);
    PlaceNext(before, i, m);
  }

  /** `SortReportsByDate`: the reports rearranged so that none begins
      after one before it.  Reports with the same `Begin` may end up in any
      order. */
  method SortReportsByDate(a: array<Report>)
    modifies a
    ensures multiset(a[..]) == multiset(old(a[..]))
    ensures NewestFirst(a[..])
  {
    for i := 0 to a.Length
      invariant multiset(a[..]) == multiset(old(a[..]))
      invariant PlacedNewest(a[..], i)
    {
      PlaceNewest(a, i);
    }
    PlacedAll(a[..]);
  }
}
