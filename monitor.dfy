/**
 * The monitoring store and query service of monitor/monitor.go. The SQLite
 * tables become two sequence fields of Service: registry, the rows of the
 * monitors table (primary key (slug, name)), and logs, the rows of
 * log_entries (foreign key (slug, name) with ON DELETE CASCADE). Clocks
 * and probe results are parameters.
 */
module Monitoring {
  import opened Results
  import Decimal

  const SecondsPerDay: int := 86400
  const NoDataYet: string := "No data yet"
  const ErrorPrefix: string := "Error: "

  /** A configured monitor; (slug, name) is its identity. */
  datatype Monitor = Monitor(slug: string, name: string, url: string)

  /** One probe result as the queries return it: Unix seconds, milliseconds, response string. */
  datatype LogEntry = LogEntry(timestamp: int, time: real, response: string)

  /** A row of log_entries: the owning monitor's key and the entry (the autoincrement id is not modelled). */
  datatype LogRow = LogRow(slug: string, name: string, entry: LogEntry)

  /** What a probe's http.Get produced. */
  datatype ProbeOutcome = TransportError(message: string) | StatusCode(code: int)

  /**
   * GetMonitorSummary's result. The uptime percentage is kept as the exact
   * pair (upCount, windowCount); UptimePercentage turns it into a number.
   */
  datatype Summary = Summary(currentStatus: string, upCount: nat, windowCount: nat)

  /** Which steps of addMonitorsToDB's transaction the database refuses. */
  datatype TxFaults = TxFaults(beginFails: bool, deleteFails: bool, prepareFails: bool, commitFails: bool)

  // ----- response strings -----

  /** A response counts as up when it starts with '2' (SQL: response LIKE '2%'). */
  predicate IsUp(response: string) {
    |response| > 0 && response[0] == '2'
  }

  /**
   * The response stored for a probe: "Error: " and the transport error's
   * text, or the status code in decimal.
   */
  function ResponseString(o: ProbeOutcome): (r: string)
    ensures o.TransportError? ==> |r| >= |ErrorPrefix| && r[..|ErrorPrefix|] == ErrorPrefix && r[|ErrorPrefix|..] == o.message
    ensures o.TransportError? ==> !IsUp(r)
    ensures o.StatusCode? && Decimal.Int64Min <= o.code <= Decimal.Int64Max ==> Decimal.ParseInt64(r) == Some(o.code)
    ensures o.StatusCode? && 100 <= o.code <= 999 ==> (IsUp(r) <==> 200 <= o.code <= 299)
  {
    match o
    case TransportError(msg) => ErrorPrefix + msg
    case StatusCode(code) =>
      StatusResponseFacts(code);
      Decimal.FormatInt(code)
  }

  lemma StatusResponseFacts(code: int)
    ensures Decimal.Int64Min <= code <= Decimal.Int64Max ==> Decimal.ParseInt64(Decimal.FormatInt(code)) == Some(code)
    ensures 100 <= code <= 999 ==> (IsUp(Decimal.FormatInt(code)) <==> 200 <= code <= 299)
  {
    if Decimal.Int64Min <= code <= Decimal.Int64Max {
      Decimal.FormatParseRoundTrip(code);
    }
    if 100 <= code <= 999 {
      Decimal.ThreeDigitLeading(code);
    }
  }

  // ----- keys -----

  predicate RowOf(row: LogRow, slug: string, name: string) {
    row.slug == slug && row.name == name
  }

  /** Some monitor in ms has the key (slug, name). */
  predicate Registered(ms: seq<Monitor>, slug: string, name: string) {
    exists i :: 0 <= i < |ms| && ms[i].slug == slug && ms[i].name == name
  }

  /** No two monitors of ms share a key. */
  predicate UniqueKeys(ms: seq<Monitor>) {
    forall i, j :: 0 <= i < j < |ms| ==> ms[i].slug != ms[j].slug || ms[i].name != ms[j].name
  }

  /** Every log row refers to a registered monitor. */
  predicate Referenced(logs: seq<LogRow>, registry: seq<Monitor>) {
    forall k :: 0 <= k < |logs| ==> Registered(registry, logs[k].slug, logs[k].name)
  }

  /** The two table constraints: primary key and foreign key. */
  predicate StoreValid(registry: seq<Monitor>, logs: seq<LogRow>) {
    UniqueKeys(registry) && Referenced(logs, registry)
  }

  // ----- what the store operations compute -----

  /**
   * The monitors table after inserting config row by row into an empty
   * table, a row whose key is already present failing and being skipped.
   */
  function FirstByKey(config: seq<Monitor>): seq<Monitor> {
    if config == [] then []
    else
      var rows := FirstByKey(config[..|config| - 1]);
      var m := config[|config| - 1];
      if Registered(rows, m.slug, m.name) then rows else rows + [m]
  }

  /** ON DELETE CASCADE: the log rows whose monitor is still in registry. */
  function Cascade(logs: seq<LogRow>, registry: seq<Monitor>): (r: seq<LogRow>)
    ensures Referenced(r, registry)
  {
    if logs == [] then []
    else
      var rest := Cascade(logs[..|logs| - 1], registry);
      var row := logs[|logs| - 1];
      if Registered(registry, row.slug, row.name) then rest + [row] else rest
  }

  /** The rows that DELETE FROM log_entries WHERE timestamp < cutoff leaves, in their order. */
  function KeepSince(logs: seq<LogRow>, cutoff: int): seq<LogRow> {
    if logs == [] then []
    else
      var rest := KeepSince(logs[..|logs| - 1], cutoff);
      var row := logs[|logs| - 1];
      if row.entry.timestamp >= cutoff then rest + [row] else rest
  }

  /** The entries of one monitor with timestamp >= since: the 24-hour window of the summary. */
  function WindowOf(logs: seq<LogRow>, slug: string, name: string, since: int): seq<LogEntry> {
    if logs == [] then []
    else
      var rest := WindowOf(logs[..|logs| - 1], slug, name, since);
      var row := logs[|logs| - 1];
      if RowOf(row, slug, name) && row.entry.timestamp >= since then rest + [row.entry] else rest
  }

  /** The entries of one monitor with start <= timestamp <= end, in table order. */
  function ChecksOf(logs: seq<LogRow>, slug: string, name: string, start: int, end: int): seq<LogEntry> {
    if logs == [] then []
    else
      var rest := ChecksOf(logs[..|logs| - 1], slug, name, start, end);
      var row := logs[|logs| - 1];
      if RowOf(row, slug, name) && start <= row.entry.timestamp <= end then rest + [row.entry] else rest
  }

  /** How many entries count as up. */
  function CountUp(es: seq<LogEntry>): (n: nat)
    ensures n <= |es|
  {
    if es == [] then 0 else CountUp(es[..|es| - 1]) + (if IsUp(es[|es| - 1].response) then 1 else 0)
  }

  /** The row at k is a latest row of the monitor (slug, name). */
  predicate IsLatest(logs: seq<LogRow>, slug: string, name: string, k: int) {
    0 <= k < |logs| && RowOf(logs[k], slug, name) &&
    forall j :: 0 <= j < |logs| && RowOf(logs[j], slug, name) ==> logs[j].entry.timestamp <= logs[k].entry.timestamp
  }

  predicate HasEntries(logs: seq<LogRow>, slug: string, name: string) {
    exists k :: 0 <= k < |logs| && RowOf(logs[k], slug, name)
  }

  /**
   * The first query of GetMonitorSummary (ORDER BY timestamp DESC LIMIT 1):
   * the index of a latest row of the monitor, or -1 when it has none.
   */
  method LatestRow(logs: seq<LogRow>, slug: string, name: string) returns (latest: int)
    ensures -1 <= latest < |logs|
    ensures latest == -1 <==> !HasEntries(logs, slug, name)
    ensures latest >= 0 ==> IsLatest(logs, slug, name, latest)
  {
    latest := -1;
    var k := 0;
    while k < |logs|
      invariant 0 <= k <= |logs|
      invariant -1 <= latest < k
      invariant latest == -1 ==> forall j :: 0 <= j < k ==> !RowOf(logs[j], slug, name)
      invariant latest >= 0 ==> RowOf(logs[latest], slug, name)
      invariant latest >= 0 ==> forall j :: 0 <= j < k && RowOf(logs[j], slug, name) ==>
                                  logs[j].entry.timestamp <= logs[latest].entry.timestamp
    {
      if RowOf(logs[k], slug, name) && (latest < 0 || logs[k].entry.timestamp > logs[latest].entry.timestamp) {
        latest := k;
      }
      k := k + 1;
    }
  }

  /**
   * The second query of GetMonitorSummary: over the rows of the monitor
   * with timestamp >= since, how many are up and how many there are.
   */
  method WindowCounts(logs: seq<LogRow>, slug: string, name: string, since: int) returns (up: nat, total: nat)
    ensures total == |WindowOf(logs, slug, name, since)|
    ensures up == CountUp(WindowOf(logs, slug, name, since))
  {
    up, total := 0, 0;
    var k := 0;
    while k < |logs|
      invariant 0 <= k <= |logs|
      invariant total == |WindowOf(logs[..k], slug, name, since)|
      invariant up == CountUp(WindowOf(logs[..k], slug, name, since))
    {
      assert logs[..k + 1][..k] == logs[..k];
      var row := logs[k];
      if RowOf(row, slug, name) && row.entry.timestamp >= since {
        ghost var w := WindowOf(logs[..k], slug, name, since);
        assert (w + [row.entry])[..|w|] == w;
        total := total + 1;
        if IsUp(row.entry.response) {
          up := up + 1;
        }
      }
      k := k + 1;
    }
    assert logs[..k] == logs;
  }

  /**
   * The query of GetMonitorChecks: the entries of the monitor with
   * start <= timestamp <= end, ordered by timestamp (ORDER BY timestamp).
   */
  method SortedChecks(logs: seq<LogRow>, slug: string, name: string, start: int, end: int) returns (checks: seq<LogEntry>)
    ensures multiset(checks) == multiset(ChecksOf(logs, slug, name, start, end))
    ensures SortedByTimestamp(checks)
  {
    checks := [];
    var k := 0;
    while k < |logs|
      invariant 0 <= k <= |logs|
      invariant SortedByTimestamp(checks)
      invariant multiset(checks) == multiset(ChecksOf(logs[..k], slug, name, start, end))
    {
      ChecksOfStep(logs, slug, name, start, end, k);
      var row := logs[k];
      if RowOf(row, slug, name) && start <= row.entry.timestamp <= end {
        checks := InsertByTimestamp(checks, row.entry);
      }
      k := k + 1;
    }
    assert logs[..k] == logs;
  }

  /** One more row of the table scanned by ChecksOf. */
  lemma ChecksOfStep(logs: seq<LogRow>, slug: string, name: string, start: int, end: int, k: nat)
    requires k < |logs|
    ensures ChecksOf(logs[..k + 1], slug, name, start, end) ==
            ChecksOf(logs[..k], slug, name, start, end) +
            (if RowOf(logs[k], slug, name) && start <= logs[k].entry.timestamp <= end then [logs[k].entry] else [])
  {
    assert logs[..k + 1][..k] == logs[..k];
  }

  /** The uptime percentage: 100 * up / total, and 0 for an empty window. */
  function UptimePercentage(s: Summary): (p: real)
    requires s.upCount <= s.windowCount
    ensures 0.0 <= p <= 100.0
    ensures s.windowCount == 0 ==> p == 0.0
    ensures s.windowCount > 0 && s.upCount == s.windowCount ==> p == 100.0
  {
    if s.windowCount == 0 then 0.0
    else
      var up, total := s.upCount as real, s.windowCount as real;
      assert up / total <= 1.0;
      100.0 * up / total
  }

  // ----- ordering -----

  /** Go's string comparison a < b: lexicographic, character by character. */
  predicate StrLess(a: string, b: string) {
    if a == [] then b != []
    else if b == [] then false
    else if a[0] != b[0] then a[0] < b[0]
    else StrLess(a[1..], b[1..])
  }

  /** The comparator GetMonitors hands to sort.Slice: by slug, then by name. */
  predicate MonitorLess(a: Monitor, b: Monitor) {
    if a.slug != b.slug then StrLess(a.slug, b.slug) else StrLess(a.name, b.name)
  }

  /** What sort.Slice guarantees: no monitor is less than one before it. */
  predicate SortedByKey(ms: seq<Monitor>) {
    forall i, j :: 0 <= i < j < |ms| ==> !MonitorLess(ms[j], ms[i])
  }

  predicate SortedByTimestamp(es: seq<LogEntry>) {
    forall i, j :: 0 <= i < j < |es| ==> es[i].timestamp <= es[j].timestamp
  }

  /** Puts e after every entry whose timestamp is not greater than its own. */
  function InsertByTimestamp(es: seq<LogEntry>, e: LogEntry): (r: seq<LogEntry>)
    requires SortedByTimestamp(es)
    ensures multiset(r) == multiset(es) + multiset{e}
    ensures SortedByTimestamp(r)
  {
    if es == [] || e.timestamp < es[0].timestamp then
      SortedCons(e, es);
      [e] + es
    else
      var rest := InsertByTimestamp(es[1..], e);
      InsertBehindHead(es, e, rest);
      [es[0]] + rest
  }

  /** Putting the head of es back in front of the insertion into its tail. */
  lemma InsertBehindHead(es: seq<LogEntry>, e: LogEntry, rest: seq<LogEntry>)
    requires es != [] && SortedByTimestamp(es) && es[0].timestamp <= e.timestamp
    requires SortedByTimestamp(rest) && multiset(rest) == multiset(es[1..]) + multiset{e}
    ensures SortedByTimestamp([es[0]] + rest)
    ensures multiset([es[0]] + rest) == multiset(es) + multiset{e}
  {
    assert es == [es[0]] + es[1..];
    forall x | x in rest ensures es[0].timestamp <= x.timestamp {
      assert x in multiset(rest);
    }
    SortedCons(es[0], rest);
  }

  lemma SortedCons(x: LogEntry, es: seq<LogEntry>)
    requires SortedByTimestamp(es)
    requires forall y :: y in es ==> x.timestamp <= y.timestamp
    ensures SortedByTimestamp([x] + es)
  {
    forall i, j | 0 <= i < j < |[x] + es| ensures ([x] + es)[i].timestamp <= ([x] + es)[j].timestamp {
      if i > 0 {
        assert ([x] + es)[i] == es[i - 1];
      }
      assert ([x] + es)[j] == es[j - 1];
    }
  }

  class Service {
    /** The monitors loaded from monitors.json at start-up. */
    var monitorsConfig: seq<Monitor>
    /** The monitors table. */
    var registry: seq<Monitor>
    /** The log_entries table. */
    var logs: seq<LogRow>
    /** RetentionDays: retentionPeriod is this many days of 24 hours. */
    const retentionDays: int

    ghost predicate Valid()
      reads this
    {
      StoreValid(registry, logs)
    }

    /**
     * NewService: opening the database keeps what an earlier run left in
     * both tables (CREATE TABLE IF NOT EXISTS); no monitor is configured yet.
     */
    constructor (retentionDays: int, persistedMonitors: seq<Monitor>, persistedLogs: seq<LogRow>)
      requires StoreValid(persistedMonitors, persistedLogs)
      ensures Valid()
      ensures this.retentionDays == retentionDays
      ensures monitorsConfig == [] && registry == persistedMonitors && logs == persistedLogs
    {
      this.retentionDays := retentionDays;
      monitorsConfig := [];
      registry := persistedMonitors;
      logs := persistedLogs;
    }

    /**
     * The store part of Start: install the parsed configuration and, unless
     * it is empty, replace the monitors table with it. With an empty
     * configuration both tables are left as they were.
     */
    method Start(config: seq<Monitor>, faults: TxFaults) returns (r: Result<()>)
      requires Valid()
      modifies this
      ensures Valid() && monitorsConfig == config
      ensures config == [] ==> r.Ok? && registry == old(registry) && logs == old(logs)
      ensures config != [] ==> (r.Ok? <==> !(faults.beginFails || faults.deleteFails || faults.prepareFails || faults.commitFails))
      ensures config != [] && r.Ok? ==> registry == FirstByKey(config) && logs == []
      ensures r.Err? ==> registry == old(registry) && logs == old(logs)
    {
      monitorsConfig := config;
      if |monitorsConfig| == 0 {
        return Ok(());
      }
      r := AddMonitorsToDB(faults);
      if r.Err? {
        r := Err("error ensuring monitors are in the database: " + r.msg);
      }
    }

    /**
     * addMonitorsToDB: in one transaction, DELETE FROM monitors (cascading
     * to every log row), then insert the configured monitors one by one; an
     * insert that breaks the primary key is skipped and the loop goes on.
     * A failing begin, delete, prepare or commit rolls everything back.
     */
    method AddMonitorsToDB(faults: TxFaults) returns (r: Result<()>)
      requires Valid()
      modifies this`registry, this`logs
      ensures Valid()
      ensures r.Ok? <==> !(faults.beginFails || faults.deleteFails || faults.prepareFails || faults.commitFails)
      ensures r.Ok? ==> registry == FirstByKey(monitorsConfig) && logs == []
      ensures r.Err? ==> registry == old(registry) && logs == old(logs)
    {
      if faults.beginFails {
        return Err("failed to begin transaction");
      }
      // DELETE FROM monitors, and the cascade it triggers on log_entries
      var txRegistry: seq<Monitor> := [];
      var txLogs := Cascade(logs, txRegistry);
      if faults.deleteFails {
        return Err("failed to clear existing monitors");
      }
      if faults.prepareFails {
        return Err("failed to prepare insert statement");
      }
      var i := 0;
      while i < |monitorsConfig|
        invariant 0 <= i <= |monitorsConfig|
        invariant txRegistry == FirstByKey(monitorsConfig[..i])
      {
        var m := monitorsConfig[i];
        assert monitorsConfig[..i + 1][..i] == monitorsConfig[..i];
        if !Registered(txRegistry, m.slug, m.name) {
          txRegistry := txRegistry + [m];
        }
        i := i + 1;
      }
      assert monitorsConfig[..i] == monitorsConfig;
      if faults.commitFails {
        return Err("commit failed");
      }
      FirstByKeyUnique(monitorsConfig);
      NoRowSurvivesClear(logs);
      registry, logs := txRegistry, txLogs;
      r := Ok(());
    }

    /**
     * saveLogEntry: insert one row into log_entries; the foreign key
     * refuses it when (slug, name) is not in the monitors table.
     */
    method SaveLogEntry(slug: string, name: string, entry: LogEntry) returns (r: Result<()>)
      requires Valid()
      modifies this`logs
      ensures Valid()
      ensures r.Ok? <==> Registered(registry, slug, name)
      ensures r.Ok? ==> logs == old(logs) + [LogRow(slug, name, entry)]
      ensures r.Err? ==> logs == old(logs)
    {
      if !Registered(registry, slug, name) {
        return Err("failed to insert log entry for " + slug + "/" + name + ": FOREIGN KEY constraint failed");
      }
      logs := logs + [LogRow(slug, name, entry)];
      r := Ok(());
    }

    /**
     * The store side of checkMonitor: the probe's outcome, its duration in
     * whole microseconds (shown as milliseconds) and the Unix second it
     * finished become one log row; a refused insert is only logged.
     */
    method CheckMonitor(slug: string, name: string, outcome: ProbeOutcome, elapsedMicros: int, now: int)
      requires Valid()
      modifies this`logs
      ensures Valid()
      ensures Registered(registry, slug, name) ==>
                logs == old(logs) + [LogRow(slug, name, LogEntry(now, elapsedMicros as real / 1000.0, ResponseString(outcome)))]
      ensures !Registered(registry, slug, name) ==> logs == old(logs)
    {
      var entry := LogEntry(now, elapsedMicros as real / 1000.0, ResponseString(outcome));
      var _ := SaveLogEntry(slug, name, entry);
    }

    /** GetMonitors: a copy of the configuration, sorted by slug and then name. */
    method GetMonitors() returns (monitors: seq<Monitor>)
      ensures multiset(monitors) == multiset(monitorsConfig)
      ensures SortedByKey(monitors)
    {
      var config := monitorsConfig;
      var a := new Monitor[|config|](i requires 0 <= i < |config| => config[i]);
      assert a[..] == config;
      SortByKey(a);
      monitors := a[..];
    }

    /** GetMonitorsBySlug: the monitors-table rows with this slug; none at all is an error. */
    method GetMonitorsBySlug(slug: string) returns (r: Result<seq<Monitor>>)
      requires Valid()
      ensures r.Ok? <==> exists i :: 0 <= i < |registry| && registry[i].slug == slug
      ensures r.Ok? ==> forall m :: m in r.value <==> m in registry && m.slug == slug
      ensures r.Ok? ==> UniqueKeys(r.value)
    {
      var monitors: seq<Monitor> := [];
      var k := 0;
      while k < |registry|
        invariant 0 <= k <= |registry|
        invariant forall m :: m in monitors <==> m in registry[..k] && m.slug == slug
        invariant UniqueKeys(monitors)
      {
        if registry[k].slug == slug {
          forall m | m in monitors ensures m.name != registry[k].name {
            var j :| 0 <= j < k && registry[j] == m;
          }
          monitors := monitors + [registry[k]];
        }
        assert registry[..k + 1] == registry[..k] + [registry[k]];
        k := k + 1;
      }
      assert registry[..k] == registry;
      if |monitors| == 0 {
        forall i | 0 <= i < |registry| ensures registry[i].slug != slug {
          assert registry[i] in registry;
        }
        return Err("no monitors found for slug '" + slug + "'");
      }
      assert monitors[0] in monitors;
      r := Ok(monitors);
    }

    /** The configuration lookup GetMonitorSummary and GetMonitorChecks start with. */
    method IsConfigured(slug: string, name: string) returns (found: bool)
      ensures found <==> Registered(monitorsConfig, slug, name)
    {
      found := false;
      var k := 0;
      while k < |monitorsConfig|
        invariant 0 <= k <= |monitorsConfig|
        invariant !found
        invariant forall j :: 0 <= j < k ==> monitorsConfig[j].slug != slug || monitorsConfig[j].name != name
      {
        if monitorsConfig[k].slug == slug && monitorsConfig[k].name == name {
          found := true;
          break;
        }
        k := k + 1;
      }
    }

    /**
     * GetMonitorSummary at Unix time now: unknown monitors are an error; the
     * current status is the response of a latest row ("No data yet" when
     * there is none); the window holds the rows of the last 24 hours.
     */
    method GetMonitorSummary(slug: string, name: string, now: int) returns (r: Result<Summary>)
      ensures r.Err? <==> !Registered(monitorsConfig, slug, name)
      ensures r.Ok? && !HasEntries(logs, slug, name) ==> r.value.currentStatus == NoDataYet
      ensures r.Ok? && HasEntries(logs, slug, name) ==>
                exists k :: IsLatest(logs, slug, name, k) && r.value.currentStatus == logs[k].entry.response
      ensures r.Ok? ==> r.value.windowCount == |WindowOf(logs, slug, name, now - SecondsPerDay)|
      ensures r.Ok? ==> r.value.upCount == CountUp(WindowOf(logs, slug, name, now - SecondsPerDay))
    {
      var found := IsConfigured(slug, name);
      if !found {
        return Err("monitor '" + slug + "/" + name + "' not found in configuration");
      }
      var latest := LatestRow(logs, slug, name);
      var status := if latest < 0 then NoDataYet else logs[latest].entry.response;
      var up, total := WindowCounts(logs, slug, name, now - SecondsPerDay);
      r := Ok(Summary(status, up, total));
    }

    /**
     * GetMonitorChecks: unknown monitors are an error; otherwise the rows of
     * the monitor with start <= timestamp <= end, ordered by timestamp.
     */
    method GetMonitorChecks(slug: string, name: string, start: int, end: int) returns (r: Result<seq<LogEntry>>)
      ensures r.Err? <==> !Registered(monitorsConfig, slug, name)
      ensures r.Ok? ==> multiset(r.value) == multiset(ChecksOf(logs, slug, name, start, end))
      ensures r.Ok? ==> SortedByTimestamp(r.value)
    {
      var found := IsConfigured(slug, name);
      if !found {
        return Err("monitor '" + slug + "/" + name + "' not found in configuration");
      }
      var checks := SortedChecks(logs, slug, name, start, end);
      r := Ok(checks);
    }

    /** The purge cutoff at Unix time now: now minus the retention period. */
    function RetentionCutoff(now: int): int
      reads this
    {
      now - retentionDays * SecondsPerDay
    }

    /**
     * purgeOldRecords at Unix time now: DELETE FROM log_entries WHERE
     * timestamp < cutoff; affected is what RowsAffected reports.
     */
    method PurgeOldRecords(now: int) returns (affected: nat)
      requires Valid()
      modifies this`logs
      ensures Valid()
      ensures logs == KeepSince(old(logs), RetentionCutoff(now))
      ensures affected == |old(logs)| - |logs| == CountOlder(old(logs), RetentionCutoff(now))
    {
      var cutoff := RetentionCutoff(now);
      var kept: seq<LogRow> := [];
      var k := 0;
      while k < |logs|
        invariant 0 <= k <= |logs|
        invariant kept == KeepSince(logs[..k], cutoff)
      {
        assert logs[..k + 1][..k] == logs[..k];
        if logs[k].entry.timestamp >= cutoff {
          kept := kept + [logs[k]];
        }
        k := k + 1;
      }
      assert logs[..k] == logs;
      KeepSinceLength(logs, cutoff);
      KeepSinceReferenced(logs, cutoff, registry);
      affected := |logs| - |kept|;
      logs := kept;
    }
  }

  // ----- sorting -----

  /** The in-place sort of GetMonitors (sort.Slice), as an insertion sort. */
  method SortByKey(a: array<Monitor>)
    modifies a
    ensures SortedByKey(a[..])
    ensures multiset(a[..]) == old(multiset(a[..]))
  {
    var i := 0;
    while i < a.Length
      invariant 0 <= i <= a.Length
      invariant forall k, l :: 0 <= k < l < i ==> !MonitorLess(a[l], a[k])
      invariant multiset(a[..]) == old(multiset(a[..]))
    {
      InsertAt(a, i);
      i := i + 1;
    }
  }

  /** One step of the insertion sort: moves a[i] down into the sorted prefix a[..i]. */
  method InsertAt(a: array<Monitor>, i: nat)
    requires i < a.Length
    requires forall k, l :: 0 <= k < l < i ==> !MonitorLess(a[l], a[k])
    modifies a
    ensures forall k, l :: 0 <= k < l <= i ==> !MonitorLess(a[l], a[k])
    ensures multiset(a[..]) == old(multiset(a[..]))
  {
    var j := i;
    while j > 0 && MonitorLess(a[j], a[j - 1])
      invariant 0 <= j <= i
      invariant forall k, l :: 0 <= k < l < j ==> !MonitorLess(a[l], a[k])
      invariant forall k, l :: j <= k < l <= i ==> !MonitorLess(a[l], a[k])
      invariant forall k, l :: 0 <= k < j < l <= i ==> !MonitorLess(a[l], a[k])
      invariant multiset(a[..]) == old(multiset(a[..]))
    {
      MonitorLessAsymmetric(a[j], a[j - 1]);
      Swap(a, j - 1, j);
      j := j - 1;
    }
    if j > 0 {
      forall k | 0 <= k < j - 1 ensures !MonitorLess(a[j], a[k]) {
        MonitorLeqTransitive(a[k], a[j - 1], a[j]);
      }
    }
  }

  method Swap(a: array<Monitor>, i: nat, j: nat)
    requires i < j < a.Length
    modifies a
    ensures a[i] == old(a[j]) && a[j] == old(a[i])
    ensures forall k :: 0 <= k < a.Length && k != i && k != j ==> a[k] == old(a[k])
    ensures multiset(a[..]) == old(multiset(a[..]))
  {
    a[i], a[j] := a[j], a[i];
  }

  // ----- lemmas -----

  lemma {:induction false} StrLessIrreflexive(a: string)
    ensures !StrLess(a, a)
  {
    if a != [] {
      StrLessIrreflexive(a[1..]);
    }
  }

  lemma {:induction false} StrLessAsymmetric(a: string, b: string)
    requires StrLess(a, b)
    ensures !StrLess(b, a)
  {
    if a != [] && b != [] && a[0] == b[0] {
      StrLessAsymmetric(a[1..], b[1..]);
    }
  }

  lemma {:induction false} StrLessTransitive(a: string, b: string, c: string)
    requires StrLess(a, b) && StrLess(b, c)
    ensures StrLess(a, c)
  {
    if a != [] && b != [] && c != [] && a[0] == b[0] && b[0] == c[0] {
      StrLessTransitive(a[1..], b[1..], c[1..]);
    }
  }

  /** Distinct strings are ordered one way or the other. */
  lemma {:induction false} StrLessTotal(a: string, b: string)
    requires a != b
    ensures StrLess(a, b) || StrLess(b, a)
  {
    if a != [] && b != [] && a[0] == b[0] {
      assert a == [a[0]] + a[1..] && b == [b[0]] + b[1..];
      StrLessTotal(a[1..], b[1..]);
    }
  }

  lemma MonitorLessAsymmetric(a: Monitor, b: Monitor)
    requires MonitorLess(a, b)
    ensures !MonitorLess(b, a)
  {
    if a.slug != b.slug {
      StrLessAsymmetric(a.slug, b.slug);
    } else {
      StrLessAsymmetric(a.name, b.name);
    }
  }

  /** "Not less" is transitive: the sort's comparator is a strict weak order. */
  lemma MonitorLeqTransitive(a: Monitor, b: Monitor, c: Monitor)
    requires !MonitorLess(b, a) && !MonitorLess(c, b)
    ensures !MonitorLess(c, a)
  {
    if a.slug != b.slug { StrLessTotal(a.slug, b.slug); }
    if b.slug != c.slug { StrLessTotal(b.slug, c.slug); }
    if a.slug != c.slug {
      if a.slug != b.slug && b.slug != c.slug {
        StrLessTransitive(a.slug, b.slug, c.slug);
      }
      StrLessAsymmetric(a.slug, c.slug);
    } else if a.slug != b.slug {
      StrLessAsymmetric(a.slug, b.slug);
    } else {
      if a.name != b.name { StrLessTotal(a.name, b.name); }
      if b.name != c.name { StrLessTotal(b.name, c.name); }
      if a.name == c.name {
        StrLessIrreflexive(a.name);
      } else {
        if a.name != b.name && b.name != c.name {
          StrLessTransitive(a.name, b.name, c.name);
        }
        StrLessAsymmetric(a.name, c.name);
      }
    }
  }

  /** After start-up the monitors table holds each configured key exactly once. */
  lemma {:induction false} FirstByKeyUnique(config: seq<Monitor>)
    ensures UniqueKeys(FirstByKey(config))
  {
    if config != [] {
      FirstByKeyUnique(config[..|config| - 1]);
    }
  }

  /** The monitors table has the same keys as the configuration. */
  lemma {:induction false} FirstByKeyKeys(config: seq<Monitor>, slug: string, name: string)
    ensures Registered(FirstByKey(config), slug, name) <==> Registered(config, slug, name)
  {
    if config != [] {
      var init := config[..|config| - 1];
      var m := config[|config| - 1];
      var rows := FirstByKey(init);
      FirstByKeyKeys(init, slug, name);
      if Registered(init, slug, name) {
        var k :| 0 <= k < |init| && init[k].slug == slug && init[k].name == name;
        assert config[k] == init[k];
      }
      if Registered(rows, slug, name) {
        var k :| 0 <= k < |rows| && rows[k].slug == slug && rows[k].name == name;
        assert (rows + [m])[k] == rows[k];
      }
      if m.slug == slug && m.name == name {
        assert (rows + [m])[|rows|] == m;
      }
      if Registered(config, slug, name) && !Registered(init, slug, name) {
        var k :| 0 <= k < |config| && config[k].slug == slug && config[k].name == name;
        assert k == |init|;
      }
      if Registered(FirstByKey(config), slug, name) && !Registered(rows, slug, name) {
        var k :| 0 <= k < |FirstByKey(config)| && FirstByKey(config)[k].slug == slug && FirstByKey(config)[k].name == name;
        assert k == |rows|;
      }
    }
  }

  /** Every row of the monitors table comes from the configuration. */
  lemma {:induction false} FirstByKeyFromConfig(config: seq<Monitor>, m: Monitor)
    requires m in FirstByKey(config)
    ensures m in config
  {
    if config != [] {
      var init := config[..|config| - 1];
      if m in FirstByKey(init) {
        FirstByKeyFromConfig(init, m);
      }
    }
  }

  /** The first configured monitor with a key is the one the table keeps: later duplicates are skipped. */
  lemma {:induction false} FirstOccurrenceWins(config: seq<Monitor>, i: nat)
    requires i < |config|
    requires forall j :: 0 <= j < i ==> config[j].slug != config[i].slug || config[j].name != config[i].name
    ensures config[i] in FirstByKey(config)
  {
    var init := config[..|config| - 1];
    assert forall j :: 0 <= j < |init| ==> init[j] == config[j];
    if i == |config| - 1 {
      FirstByKeyKeys(init, config[i].slug, config[i].name);
      assert FirstByKey(config) == FirstByKey(init) + [config[i]];
    } else {
      FirstOccurrenceWins(init, i);
    }
  }

  /** Deleting every monitor cascades to every log row. */
  lemma {:induction false} NoRowSurvivesClear(logs: seq<LogRow>)
    ensures Cascade(logs, []) == []
  {
    if logs != [] {
      NoRowSurvivesClear(logs[..|logs| - 1]);
    }
  }

  /** A configuration with one monitor per key is stored as it is. */
  lemma {:induction false} FirstByKeyOfUnique(config: seq<Monitor>)
    requires UniqueKeys(config)
    ensures FirstByKey(config) == config
  {
    if config != [] {
      var init := config[..|config| - 1];
      var m := config[|config| - 1];
      UniqueKeysLast(config);
      FirstByKeyOfUnique(init);
      assert init + [m] == config;
    }
  }

  /** Without its last monitor a key-unique list stays key-unique and lacks that key. */
  lemma UniqueKeysLast(config: seq<Monitor>)
    requires config != [] && UniqueKeys(config)
    ensures UniqueKeys(config[..|config| - 1])
    ensures !Registered(config[..|config| - 1], config[|config| - 1].slug, config[|config| - 1].name)
  {
    var init := config[..|config| - 1];
    assert forall j :: 0 <= j < |init| ==> init[j] == config[j];
  }

  /** Exactly the rows with timestamp >= cutoff survive the purge. */
  lemma {:induction false} KeepSinceMembers(logs: seq<LogRow>, cutoff: int)
    ensures forall row :: row in KeepSince(logs, cutoff) <==> row in logs && row.entry.timestamp >= cutoff
  {
    if logs != [] {
      KeepSinceMembers(logs[..|logs| - 1], cutoff);
      assert logs == logs[..|logs| - 1] + [logs[|logs| - 1]];
    }
  }

  /** The purge reports as affected exactly the rows older than the cutoff. */
  lemma {:induction false} KeepSinceLength(logs: seq<LogRow>, cutoff: int)
    ensures |KeepSince(logs, cutoff)| <= |logs|
    ensures |logs| - |KeepSince(logs, cutoff)| == CountOlder(logs, cutoff)
  {
    if logs != [] {
      KeepSinceLength(logs[..|logs| - 1], cutoff);
    }
  }

  /** The number of rows with timestamp < cutoff. */
  function CountOlder(logs: seq<LogRow>, cutoff: int): nat {
    if logs == [] then 0
    else CountOlder(logs[..|logs| - 1], cutoff) + (if logs[|logs| - 1].entry.timestamp < cutoff then 1 else 0)
  }

  /** Purging with the same cutoff a second time removes nothing. */
  lemma {:induction false} KeepSinceIdempotent(logs: seq<LogRow>, cutoff: int)
    ensures KeepSince(KeepSince(logs, cutoff), cutoff) == KeepSince(logs, cutoff)
  {
    if logs != [] {
      var init := logs[..|logs| - 1];
      KeepSinceIdempotent(init, cutoff);
      var rest := KeepSince(init, cutoff);
      if logs[|logs| - 1].entry.timestamp >= cutoff {
        assert (rest + [logs[|logs| - 1]])[..|rest|] == rest;
      }
    }
  }

  /** Purges at two cutoffs leave what one purge at the later cutoff leaves. */
  lemma {:induction false} KeepSinceMonotone(logs: seq<LogRow>, c1: int, c2: int)
    requires c1 <= c2
    ensures KeepSince(KeepSince(logs, c2), c1) == KeepSince(logs, c2)
    ensures KeepSince(KeepSince(logs, c1), c2) == KeepSince(logs, c2)
  {
    if logs != [] {
      var init := logs[..|logs| - 1];
      var row := logs[|logs| - 1];
      KeepSinceMonotone(init, c1, c2);
      var r1, r2 := KeepSince(init, c1), KeepSince(init, c2);
      assert (r1 + [row])[..|r1|] == r1;
      assert (r2 + [row])[..|r2|] == r2;
    }
  }

  /** The purge keeps the surviving rows in place: it distributes over concatenation. */
  lemma {:induction false} KeepSinceAppend(xs: seq<LogRow>, ys: seq<LogRow>, cutoff: int)
    ensures KeepSince(xs + ys, cutoff) == KeepSince(xs, cutoff) + KeepSince(ys, cutoff)
  {
    if ys == [] {
      assert xs + ys == xs;
    } else {
      var init := ys[..|ys| - 1];
      assert (xs + ys)[..|xs + ys| - 1] == xs + init;
      KeepSinceAppend(xs, init, cutoff);
    }
  }

  /** The purge only deletes, so the foreign key still holds. */
  lemma {:induction false} KeepSinceReferenced(logs: seq<LogRow>, cutoff: int, registry: seq<Monitor>)
    requires Referenced(logs, registry)
    ensures Referenced(KeepSince(logs, cutoff), registry)
  {
    KeepSinceMembers(logs, cutoff);
    var kept := KeepSince(logs, cutoff);
    forall k | 0 <= k < |kept| ensures Registered(registry, kept[k].slug, kept[k].name) {
      assert kept[k] in logs;
      var j :| 0 <= j < |logs| && logs[j] == kept[k];
    }
  }

  /**
   * Every check returned lies in [start, end], and every row of the monitor
   * in that range contributes its entry.
   */
  lemma {:induction false} ChecksOfInRange(logs: seq<LogRow>, slug: string, name: string, start: int, end: int)
    ensures forall e :: e in ChecksOf(logs, slug, name, start, end) ==> start <= e.timestamp <= end
    ensures forall k :: 0 <= k < |logs| && RowOf(logs[k], slug, name) && start <= logs[k].entry.timestamp <= end ==>
              logs[k].entry in ChecksOf(logs, slug, name, start, end)
  {
    if logs != [] {
      var init := logs[..|logs| - 1];
      ChecksOfInRange(init, slug, name, start, end);
      forall k | 0 <= k < |init| ensures init[k] == logs[k] { }
    }
  }

  /**
   * Every summary window entry has timestamp >= since, every row of the
   * monitor with timestamp >= since contributes its entry, and the window
   * is no larger than the table.
   */
  lemma {:induction false} WindowOfSince(logs: seq<LogRow>, slug: string, name: string, since: int)
    ensures forall e :: e in WindowOf(logs, slug, name, since) ==> e.timestamp >= since
    ensures forall k :: 0 <= k < |logs| && RowOf(logs[k], slug, name) && logs[k].entry.timestamp >= since ==>
              logs[k].entry in WindowOf(logs, slug, name, since)
    ensures |WindowOf(logs, slug, name, since)| <= |logs|
  {
    if logs != [] {
      var init := logs[..|logs| - 1];
      WindowOfSince(init, slug, name, since);
      forall k | 0 <= k < |init| ensures init[k] == logs[k] { }
    }
  }
}
