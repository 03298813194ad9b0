/**
 * The extension's log buffer: a bounded list of entries, redaction of
 * sensitive keys in the data attached to an entry, filtering, CSV and
 * plain-text export, and per-level statistics.
 */
module Logging {
  import opened Util

  // ---------------------------------------------------------------------
  // Logged data
  // ---------------------------------------------------------------------

  /**
   * A JavaScript value attached to a log entry. Arrays and plain objects are
   * the values `typeof` calls 'object'; an object is its own-property list
   * in `Object.entries` order.
   */
  datatype Value =
    | Null
    | Bool(b: bool)
    | Num(n: int)
    | Text(s: string)
    | Array(items: seq<Value>)
    | Object(entries: seq<(string, Value)>)

  /** `typeof v === 'object' && v !== null`. */
  predicate IsObject(v: Value)
  {
    v.Array? || v.Object?
  }

  /** The number of `Object.entries` of an object or array. */
  function EntryCount(v: Value): nat
    requires IsObject(v)
  {
    if v.Object? then |v.entries| else |v.items|
  }

  /** The key of entry `i`: an array's keys are its indices, as strings. */
  function EntryKey(v: Value, i: nat): string
    requires IsObject(v) && i < EntryCount(v)
  {
    if v.Object? then v.entries[i].0 else NatToString(i)
  }

  function EntryValue(v: Value, i: nat): Value
    requires IsObject(v) && i < EntryCount(v)
  {
    if v.Object? then v.entries[i].1 else v.items[i]
  }

  /** The keys of an object or array, in entry order. */
  function Keys(v: Value): seq<string>
    requires IsObject(v)
  {
    seq(EntryCount(v), i requires 0 <= i < EntryCount(v) => EntryKey(v, i))
  }

  const Redacted := "[REDACTED]"

  const SensitiveKeys: seq<string> :=
    ["apiKey", "password", "token", "secret", "key", "authorization", "auth", "credential", "private"]

  /** A key is sensitive when its lower-cased form contains one of the listed words. */
  predicate IsSensitiveKey(key: string)
  {
    exists w :: w in SensitiveKeys && Contains(Lower(key), w)
  }

  /**
   * `sanitizeData`: a value that is not an object comes back as it is; an
   * object or array becomes a fresh plain object with the same keys in the
   * same order (so an array comes back keyed by its indices).
   */
  function Sanitize(v: Value): (r: Value)
    ensures !IsObject(v) ==> r == v
    ensures IsObject(v) ==> r.Object? && |r.entries| == EntryCount(v)
    decreases v, 1
  {
    if !IsObject(v) then v
    else Object(seq(EntryCount(v), i requires 0 <= i < EntryCount(v) => SanitizeEntry(v, i)))
  }

  /** One iteration of the loop in `sanitizeData`: the entry it writes for entry `i`. */
  function SanitizeEntry(v: Value, i: nat): (string, Value)
    requires IsObject(v) && i < EntryCount(v)
    decreases v, 0
  {
    var key := EntryKey(v, i);
    var value := EntryValue(v, i);
    if IsSensitiveKey(key) then (key, Text(Redacted))
    else if IsObject(value) then (key, Sanitize(value))
    else (key, value)
  }

  /** The loop of `sanitizeData`, recursing into nested objects. */
  method SanitizeData(data: Value) returns (r: Value)
    ensures r == Sanitize(data)
    decreases data
  {
    if !IsObject(data) {
      return data;
    }
    var sanitized: seq<(string, Value)> := [];
    var n := EntryCount(data);
    for i := 0 to n
      invariant |sanitized| == i
      invariant forall j :: 0 <= j < i ==> sanitized[j] == SanitizeEntry(data, j)
    {
      var key := EntryKey(data, i);
      var value := EntryValue(data, i);
      if IsSensitiveKey(key) {
        sanitized := sanitized + [(key, Text(Redacted))];
      } else if IsObject(value) {
        var inner := SanitizeData(value);
        sanitized := sanitized + [(key, inner)];
      } else {
        sanitized := sanitized + [(key, value)];
      }
    }
    return Object(sanitized);
  }

  /** Sanitizing keeps exactly the keys, in order. */
  lemma SanitizeKeys(v: Value)
    requires IsObject(v)
    ensures IsObject(Sanitize(v)) && Keys(Sanitize(v)) == Keys(v)
  {
  }

  /**
   * Entry `i` of a sanitized object is '[REDACTED]' when its key is sensitive,
   * the sanitized nested value when it holds an object, and unchanged otherwise.
   */
  lemma SanitizeValues(v: Value, i: nat)
    requires IsObject(v) && i < EntryCount(v)
    ensures IsObject(Sanitize(v)) && i < EntryCount(Sanitize(v))
    ensures IsSensitiveKey(EntryKey(v, i)) ==> EntryValue(Sanitize(v), i) == Text(Redacted)
    ensures !IsSensitiveKey(EntryKey(v, i)) ==> EntryValue(Sanitize(v), i) == Sanitize(EntryValue(v, i))
  {
  }

  /** At every depth, a sensitive key holds nothing but '[REDACTED]'. */
  predicate Redacts(v: Value)
    decreases v
  {
    IsObject(v) ==>
      forall i :: 0 <= i < EntryCount(v) ==>
        (IsSensitiveKey(EntryKey(v, i)) ==> EntryValue(v, i) == Text(Redacted)) && Redacts(EntryValue(v, i))
  }

  /** Whatever the input, no sensitive key of the sanitized value, however deep, keeps its value. */
  lemma {:induction false} SanitizeRedacts(v: Value)
    ensures Redacts(Sanitize(v))
    decreases v
  {
    if IsObject(v) {
      var r := Sanitize(v);
      forall i | 0 <= i < EntryCount(r)
        ensures (IsSensitiveKey(EntryKey(r, i)) ==> EntryValue(r, i) == Text(Redacted)) && Redacts(EntryValue(r, i))
      {
        var x := EntryValue(v, i);
        assert r.entries[i] == SanitizeEntry(v, i);
        if !IsSensitiveKey(EntryKey(v, i)) && IsObject(x) {
          SanitizeRedacts(x);
        }
      }
    }
  }

  /** Sanitizing a second time changes nothing. */
  lemma {:induction false} SanitizeIdempotent(v: Value)
    ensures Sanitize(Sanitize(v)) == Sanitize(v)
    decreases v
  {
    if IsObject(v) {
      var r := Sanitize(v);
      forall i | 0 <= i < EntryCount(r)
        ensures SanitizeEntry(r, i) == SanitizeEntry(v, i)
      {
        var x := EntryValue(v, i);
        if IsObject(x) {
          SanitizeIdempotent(x);
        }
      }
      assert Sanitize(r).entries == r.entries;
    }
  }

  // ---------------------------------------------------------------------
  // Sensitive keys
  // ---------------------------------------------------------------------

  /** Every character of a contained word occurs in the containing string. */
  lemma {:induction false} ContainsChar(s: string, w: string, j: nat)
    requires Contains(s, w) && j < |w|
    ensures w[j] in s
    decreases |s|
  {
    if StartsWith(s, w) {
      assert s[j] == w[j];
    } else {
      ContainsChar(s[1..], w, j);
      assert w[j] in s[1..];
    }
  }

  /** A string that contains `s[k..]`'s word contains it too. */
  lemma {:induction false} ContainsDrop(s: string, k: nat, w: string)
    requires k <= |s| && Contains(s[k..], w)
    ensures Contains(s, w)
    decreases k
  {
    if k > 0 {
      assert s[1..][k - 1..] == s[k..];
      ContainsDrop(s[1..], k - 1, w);
    }
  }

  /** Containing `u + w` means containing `w`. */
  lemma {:induction false} ContainsSuffix(s: string, u: string, w: string)
    requires Contains(s, u + w)
    ensures Contains(s, w)
    decreases |s|
  {
    if StartsWith(s, u + w) {
      assert s[|u|..][..|w|] == (u + w)[|u|..] == w;
      assert Contains(s[|u|..], w);
      ContainsDrop(s, |u|, w);
    } else {
      ContainsSuffix(s[1..], u, w);
      ContainsDrop(s, 1, w);
    }
  }

  /** The listed word 'apiKey' holds an upper-case letter, so no lower-cased key contains it. */
  lemma ApiKeyNeverMatches(key: string)
    ensures !Contains(Lower(key), "apiKey")
  {
    if Contains(Lower(key), "apiKey") {
      ContainsChar(Lower(key), "apiKey", 3);
      assert false;
    }
  }

  /** The word 'key' still marks every key whose lower-cased form contains 'apikey'. */
  lemma KeyCoversApiKey(key: string)
    requires Contains(Lower(key), "apikey")
    ensures IsSensitiveKey(key)
  {
    assert "apikey" == "api" + "key";
    ContainsSuffix(Lower(key), "api", "key");
    assert "key" in SensitiveKeys;
  }

  // ---------------------------------------------------------------------
  // The buffer
  // ---------------------------------------------------------------------

  datatype LogEntry = LogEntry(
    id: string,
    timestamp: string,
    level: string,
    message: string,
    data: Value,
    url: string,
    userAgent: string)

  /**
   * What `log` reads from its surroundings: the generated id, the ISO
   * timestamp, `window.location?.href` (null when there is no location) and
   * `navigator.userAgent`.
   */
  datatype Env = Env(id: string, timestamp: string, href: JsStr, userAgent: string)

  const MaxLogs: nat := 1000

  /** `getCurrentUrl`: the page address, or 'unknown' when there is none. */
  function CurrentUrl(env: Env): (r: string)
    ensures env.href.Str? && env.href.s != "" ==> r == env.href.s
    ensures env.href.Null? || env.href.s == "" ==> r == "unknown"
  {
    OrElse(env.href, "unknown")
  }

  /** The entry `log(level, message, data)` builds. */
  function NewEntry(level: string, message: string, data: Value, env: Env): (e: LogEntry)
    ensures e.level == Upper(level) && e.message == message && e.data == Sanitize(data)
    ensures e.url == CurrentUrl(env)
  {
    LogEntry(env.id, env.timestamp, Upper(level), message, Sanitize(data), CurrentUrl(env), env.userAgent)
  }

  /**
   * Appending one entry to a buffer trimmed to `MaxLogs`: the result holds
   * at most `MaxLogs` entries, ends with the new one, and before it keeps
   * the newest of the old entries in their order.
   */
  lemma BufferAfterPush(logs: seq<LogEntry>, e: LogEntry)
    ensures var r := KeepLast(logs + [e], MaxLogs);
      |r| == (if |logs| < MaxLogs then |logs| + 1 else MaxLogs) &&
      r[|r| - 1] == e &&
      r[..|r| - 1] == logs[|logs| - (|r| - 1)..]
  {
    var r := KeepLast(logs + [e], MaxLogs);
    assert r == (logs + [e])[|logs| + 1 - |r|..];
    assert r[..|r| - 1] == (logs + [e])[|logs| + 1 - |r|..|logs|];
  }

  /** The counts that `getStats` reports; the per-hour counts are not modelled. */
  datatype Stats = Stats(total: nat, byLevel: map<string, nat>, errors: nat, warnings: nat)

  /** The filter argument of `getLogs`; a missing field is null. */
  datatype LogFilter = LogFilter(level: JsStr, message: JsStr)

  predicate Truthy(s: JsStr)
  {
    s.Str? && s.s != ""
  }

  function HasLevel(level: string): LogEntry -> bool
  {
    (e: LogEntry) => e.level == level
  }

  function MentionsText(m: string): LogEntry -> bool
  {
    (e: LogEntry) => Contains(Lower(e.message), Lower(m))
  }

  /** The entries `getLogs(filter)` returns, one filter after the other. */
  function FilteredLogs(logs: seq<LogEntry>, filter: LogFilter): seq<LogEntry>
  {
    var byLevel := if Truthy(filter.level) then Filter(logs, HasLevel(Upper(filter.level.s))) else logs;
    if Truthy(filter.message) then Filter(byLevel, MentionsText(filter.message.s)) else byLevel
  }

  class Logger {
    var logs: seq<LogEntry>
    const maxLogs: nat := MaxLogs

    /** A new logger starts empty; loading saved logs from storage is not modelled. */
    constructor()
      ensures logs == []
    {
      logs := [];
    }

    /**
     * `log`: records a new entry, drops the oldest entries past `maxLogs`
     * and returns the entry.
     */
    method Log(level: string, message: string, data: Value, env: Env) returns (entry: LogEntry)
      modifies this
      ensures entry == NewEntry(level, message, data, env)
      ensures logs == KeepLast(old(logs) + [entry], MaxLogs)
      ensures |logs| <= MaxLogs && logs[|logs| - 1] == entry
    {
      var sanitized := SanitizeData(data);
      entry := LogEntry(env.id, env.timestamp, Upper(level), message, sanitized, CurrentUrl(env), env.userAgent);
      logs := logs + [entry];
      if |logs| > maxLogs {
        logs := logs[|logs| - maxLogs..];
      }
    }

    method Info(message: string, data: Value, env: Env) returns (entry: LogEntry)
      modifies this
      ensures entry == NewEntry("info", message, data, env) && entry.level == "INFO"
      ensures logs == KeepLast(old(logs) + [entry], MaxLogs)
    {
      entry := Log("info", message, data, env);
      assert Upper("info") == "INFO";
    }

    method Warn(message: string, data: Value, env: Env) returns (entry: LogEntry)
      modifies this
      ensures entry == NewEntry("warn", message, data, env) && entry.level == "WARN"
      ensures logs == KeepLast(old(logs) + [entry], MaxLogs)
    {
      entry := Log("warn", message, data, env);
      assert Upper("warn") == "WARN";
    }

    method Error(message: string, data: Value, env: Env) returns (entry: LogEntry)
      modifies this
      ensures entry == NewEntry("error", message, data, env) && entry.level == "ERROR"
      ensures logs == KeepLast(old(logs) + [entry], MaxLogs)
    {
      entry := Log("error", message, data, env);
      assert Upper("error") == "ERROR";
    }

    method Debug(message: string, data: Value, env: Env) returns (entry: LogEntry)
      modifies this
      ensures entry == NewEntry("debug", message, data, env) && entry.level == "DEBUG"
      ensures logs == KeepLast(old(logs) + [entry], MaxLogs)
    {
      entry := Log("debug", message, data, env);
      assert Upper("debug") == "DEBUG";
    }

    /** `getLogs`: a copy of the buffer narrowed by the level and message filters. */
    method GetLogs(filter: LogFilter) returns (filtered: seq<LogEntry>)
      ensures filtered == FilteredLogs(logs, filter)
    {
      filtered := logs;
      if Truthy(filter.level) {
        filtered := Filter(filtered, HasLevel(Upper(filter.level.s)));
      }
      if Truthy(filter.message) {
        filtered := Filter(filtered, MentionsText(filter.message.s));
      }
    }

    /** `clearLogs`: the buffer is empty afterwards; persisting it is not modelled. */
    method ClearLogs()
      modifies this
      ensures logs == []
    {
      logs := [];
    }

    /** `getStats`: one pass over the buffer counting levels, errors and warnings. */
    method GetStats() returns (stats: Stats)
      ensures stats.total == |logs|
      ensures stats.byLevel == LevelCounts(logs)
      ensures stats.errors == Count(logs, HasLevel("ERROR"))
      ensures stats.warnings == Count(logs, HasLevel("WARN"))
    {
      var entries := logs;
      stats := Stats(|entries|, map[], 0, 0);
      for i := 0 to |entries|
        invariant stats.total == |entries|
        invariant stats.byLevel == LevelCounts(entries[..i])
        invariant stats.errors == Count(entries[..i], HasLevel("ERROR"))
        invariant stats.warnings == Count(entries[..i], HasLevel("WARN"))
      {
        var level := entries[i].level;
        var seen := if level in stats.byLevel then stats.byLevel[level] else 0;
        stats := stats.(byLevel := stats.byLevel[level := seen + 1]);
        if level == "ERROR" {
          stats := stats.(errors := stats.errors + 1);
        }
        if level == "WARN" {
          stats := stats.(warnings := stats.warnings + 1);
        }
        StatsStep(entries, i);
      }
      assert entries[..|entries|] == entries;
    }
  }

  // ---------------------------------------------------------------------
  // Filtering
  // ---------------------------------------------------------------------

  /** Filtering by `p` and then by `q` is filtering by both tests at once, in order. */
  lemma {:induction false} FilterFilter<T>(s: seq<T>, p: T -> bool, q: T -> bool, both: T -> bool)
    requires forall x :: both(x) == (p(x) && q(x))
    ensures Filter(Filter(s, p), q) == Filter(s, both)
  {
    if s != [] {
      FilterFilter(s[1..], p, q, both);
      assert Filter(s, both) == (if both(s[0]) then [s[0]] else []) + Filter(s[1..], both);
      if p(s[0]) {
        assert Filter(s, p) == [s[0]] + Filter(s[1..], p);
        FilterConcat([s[0]], Filter(s[1..], p), q);
        assert Filter([s[0]], q) == (if q(s[0]) then [s[0]] else []) + Filter([s[0]][1..], q);
      } else {
        assert Filter(s, p) == [] + Filter(s[1..], p);
        assert [] + Filter(s[1..], p) == Filter(s[1..], p);
      }
    }
  }

  /**
   * An entry is returned by `getLogs` iff it is in the buffer, has the
   * upper-cased filter level when a level is given, and mentions the filter
   * text, ignoring ASCII case, when a message is given.
   */
  lemma FilteredLogsMembers(logs: seq<LogEntry>, filter: LogFilter, e: LogEntry)
    ensures e in FilteredLogs(logs, filter) <==>
      e in logs &&
      (Truthy(filter.level) ==> e.level == Upper(filter.level.s)) &&
      (Truthy(filter.message) ==> Contains(Lower(e.message), Lower(filter.message.s)))
  {
    var byLevel := if Truthy(filter.level) then Filter(logs, HasLevel(Upper(filter.level.s))) else logs;
    if Truthy(filter.level) {
      FilterMembers(logs, HasLevel(Upper(filter.level.s)));
    }
    if Truthy(filter.message) {
      FilterMembers(byLevel, MentionsText(filter.message.s));
    }
  }

  /** The two filters together are one order-preserving filter of the buffer. */
  lemma FilteredLogsIsFilter(logs: seq<LogEntry>, filter: LogFilter)
    ensures FilteredLogs(logs, filter) ==
      Filter(logs, (e: LogEntry) =>
        (Truthy(filter.level) ==> HasLevel(Upper(filter.level.s))(e)) &&
        (Truthy(filter.message) ==> MentionsText(filter.message.s)(e)))
  {
    var keep := (e: LogEntry) =>
      (Truthy(filter.level) ==> HasLevel(Upper(filter.level.s))(e)) &&
      (Truthy(filter.message) ==> MentionsText(filter.message.s)(e));
    if Truthy(filter.level) && Truthy(filter.message) {
      FilterFilter(logs, HasLevel(Upper(filter.level.s)), MentionsText(filter.message.s), keep);
    } else if Truthy(filter.level) {
      FilterSame(logs, HasLevel(Upper(filter.level.s)), keep);
    } else if Truthy(filter.message) {
      FilterSame(logs, MentionsText(filter.message.s), keep);
    } else {
      FilterAll(logs, keep);
    }
  }

  /** Filters by two tests that agree on every element are the same. */
  lemma {:induction false} FilterSame<T>(s: seq<T>, p: T -> bool, q: T -> bool)
    requires forall x :: p(x) == q(x)
    ensures Filter(s, p) == Filter(s, q)
  {
    if s != [] {
      FilterSame(s[1..], p, q);
    }
  }

  /** A filter every element passes keeps the whole sequence. */
  lemma {:induction false} FilterAll<T>(s: seq<T>, p: T -> bool)
    requires forall x :: p(x)
    ensures Filter(s, p) == s
  {
    if s != [] {
      FilterAll(s[1..], p);
    }
  }

  /** With neither filter set, `getLogs` returns the whole buffer. */
  lemma NoFilterKeepsAll(logs: seq<LogEntry>, filter: LogFilter)
    requires !Truthy(filter.level) && !Truthy(filter.message)
    ensures FilteredLogs(logs, filter) == logs
  {
  }

  // ---------------------------------------------------------------------
  // Export
  // ---------------------------------------------------------------------

  const CsvHeader := "timestamp,level,message,url"

  /** `message.replace(/"/g, '""')`. */
  function DoubleQuotes(m: string): (r: string)
    ensures |r| >= |m|
  {
    if m == [] then []
    else (if m[0] == '"' then "\"\"" else [m[0]]) + DoubleQuotes(m[1..])
  }

  /** How a CSV reader reads a quoted field's inside back: `""` stands for `"`. */
  function UndoubleQuotes(r: string): string
    decreases |r|
  {
    if r == [] then []
    else if |r| >= 2 && r[0] == '"' && r[1] == '"' then "\"" + UndoubleQuotes(r[2..])
    else [r[0]] + UndoubleQuotes(r[1..])
  }

  /** Doubling the quotes of a message is undone by a CSV reader. */
  lemma {:induction false} UndoubleDouble(m: string)
    ensures UndoubleQuotes(DoubleQuotes(m)) == m
  {
    if m != [] {
      var rest := DoubleQuotes(m[1..]);
      UndoubleDouble(m[1..]);
      if m[0] == '"' {
        assert DoubleQuotes(m) == "\"\"" + rest;
        assert (("\"\"" + rest)[2..]) == rest;
      } else {
        assert DoubleQuotes(m) == [m[0]] + rest;
        assert ([m[0]] + rest)[1..] == rest;
      }
    }
  }

  /** Doubling quotes adds no other character. */
  lemma {:induction false} DoubleQuotesAvoids(m: string, c: char)
    requires c != '"' && c !in m
    ensures c !in DoubleQuotes(m)
  {
    if m != [] {
      DoubleQuotesAvoids(m[1..], c);
    }
  }

  function Quoted(m: string): string
  {
    "\"" + DoubleQuotes(m) + "\""
  }

  /** One CSV row: timestamp, level, quoted message, url. */
  function CsvRow(e: LogEntry): string
  {
    Join([e.timestamp, e.level, Quoted(e.message), e.url], ",")
  }

  /** The text `exportToCSV(logs)` returns. */
  function Csv(logs: seq<LogEntry>): string
  {
    if logs == [] then "" else Join([CsvHeader] + Map(logs, CsvRow), "\n")
  }

  /** `exportToCSV`: the header row, then one row pushed per entry, joined by newlines. */
  method ExportToCSV(logs: seq<LogEntry>) returns (csv: string)
    ensures csv == Csv(logs)
  {
    if |logs| == 0 {
      return "";
    }
    var rows := [CsvHeader];
    for i := 0 to |logs|
      invariant |rows| == i + 1 && rows[0] == CsvHeader
      invariant forall j :: 0 <= j < i ==> rows[j + 1] == CsvRow(logs[j])
    {
      rows := rows + [CsvRow(logs[i])];
    }
    assert rows == [CsvHeader] + Map(logs, CsvRow);
    csv := Join(rows, "\n");
  }

  /** A join of strings without `c`, on a separator without `c`, has no `c`. */
  lemma {:induction false} JoinAvoids(xs: seq<string>, sep: string, c: char)
    requires c !in sep && forall k :: 0 <= k < |xs| ==> c !in xs[k]
    ensures c !in Join(xs, sep)
  {
    if |xs| > 1 {
      JoinAvoids(xs[1..], sep, c);
    }
  }

  predicate SingleLine(e: LogEntry)
  {
    '\n' !in e.timestamp && '\n' !in e.level && '\n' !in e.message && '\n' !in e.url
  }

  lemma CsvRowSingleLine(e: LogEntry)
    requires SingleLine(e)
    ensures '\n' !in CsvRow(e)
  {
    DoubleQuotesAvoids(e.message, '\n');
    JoinAvoids([e.timestamp, e.level, Quoted(e.message), e.url], ",", '\n');
  }

  /**
   * When no field holds a newline, the CSV text of `n > 0` entries has
   * `n + 1` lines: the header, then each entry's row in order.
   */
  lemma CsvLines(logs: seq<LogEntry>)
    requires logs != []
    requires forall k :: 0 <= k < |logs| ==> SingleLine(logs[k])
    ensures Split(Csv(logs), '\n') == [CsvHeader] + Map(logs, CsvRow)
    ensures |Split(Csv(logs), '\n')| == |logs| + 1
  {
    var rows := [CsvHeader] + Map(logs, CsvRow);
    forall k | 0 <= k < |rows|
      ensures '\n' !in rows[k]
    {
      if k > 0 {
        CsvRowSingleLine(logs[k - 1]);
      }
    }
    SplitJoin(rows, '\n');
  }

  /** The CSV of no entries is the empty string. */
  lemma CsvEmpty()
    ensures Csv([]) == ""
  {
  }

  /** A row's message field, read back by a CSV reader, is the message. */
  lemma CsvMessageRoundTrip(m: string)
    ensures var q := Quoted(m);
      |q| >= 2 && q[0] == '"' && q[|q| - 1] == '"' && UndoubleQuotes(q[1..|q| - 1]) == m
  {
    var q := Quoted(m);
    assert q[1..|q| - 1] == DoubleQuotes(m);
    UndoubleDouble(m);
  }

  /** `[timestamp] LEVEL: message (url)`. */
  function TextLine(e: LogEntry): string
  {
    "[" + e.timestamp + "] " + e.level + ": " + e.message + " (" + e.url + ")"
  }

  lemma TextLineSingleLine(e: LogEntry)
    requires SingleLine(e)
    ensures '\n' !in TextLine(e)
  {
    var t := "[" + e.timestamp;
    assert '\n' !in t;
    t := t + "] ";
    assert '\n' !in t;
    t := t + e.level;
    assert '\n' !in t;
    t := t + ": ";
    assert '\n' !in t;
    t := t + e.message;
    assert '\n' !in t;
    t := t + " (";
    assert '\n' !in t;
    t := t + e.url;
    assert '\n' !in t;
    t := t + ")";
    assert t == TextLine(e);
  }

  /** `exportToText`. */
  function TextExport(logs: seq<LogEntry>): string
  {
    Join(Map(logs, TextLine), "\n")
  }

  /** When no field holds a newline, the text export has exactly one line per entry, in order. */
  lemma TextExportLines(logs: seq<LogEntry>)
    requires logs != []
    requires forall k :: 0 <= k < |logs| ==> SingleLine(logs[k])
    ensures Split(TextExport(logs), '\n') == Map(logs, TextLine)
  {
    var lines := Map(logs, TextLine);
    forall k | 0 <= k < |lines|
      ensures '\n' !in lines[k]
    {
      TextLineSingleLine(logs[k]);
    }
    SplitJoin(lines, '\n');
  }

  // ---------------------------------------------------------------------
  // Statistics
  // ---------------------------------------------------------------------

  /** `byLevel` after counting `logs` in order. */
  function LevelCounts(logs: seq<LogEntry>): map<string, nat>
  {
    if logs == [] then map[]
    else
      var m := LevelCounts(logs[..|logs| - 1]);
      var level := logs[|logs| - 1].level;
      m[level := (if level in m then m[level] else 0) + 1]
  }

  /** One entry more: its level's count goes up by one, and so does the ERROR or WARN count when it has that level. */
  lemma StatsStep(logs: seq<LogEntry>, i: nat)
    requires i < |logs|
    ensures var m := LevelCounts(logs[..i]); var level := logs[i].level;
      LevelCounts(logs[..i + 1]) == m[level := (if level in m then m[level] else 0) + 1]
    ensures Count(logs[..i + 1], HasLevel("ERROR")) == Count(logs[..i], HasLevel("ERROR")) + (if logs[i].level == "ERROR" then 1 else 0)
    ensures Count(logs[..i + 1], HasLevel("WARN")) == Count(logs[..i], HasLevel("WARN")) + (if logs[i].level == "WARN" then 1 else 0)
  {
    assert logs[..i + 1] == logs[..i] + [logs[i]];
    assert logs[..i + 1][..i] == logs[..i];
    CountSnoc(logs[..i], logs[i], HasLevel("ERROR"));
    CountSnoc(logs[..i], logs[i], HasLevel("WARN"));
  }

  /**
   * A level is a key of `byLevel` iff some entry has it, and its count is
   * the number of entries with that level.
   */
  lemma {:induction false} LevelCountsCount(logs: seq<LogEntry>, level: string)
    ensures level in LevelCounts(logs) <==> Count(logs, HasLevel(level)) > 0
    ensures level in LevelCounts(logs) ==> LevelCounts(logs)[level] == Count(logs, HasLevel(level))
  {
    if logs != [] {
      var init := logs[..|logs| - 1];
      LevelCountsCount(init, level);
      assert logs == init + [logs[|logs| - 1]];
      CountSnoc(init, logs[|logs| - 1], HasLevel(level));
    }
  }

  /** The sum of the counts in a map. */
  ghost function MapSum(m: map<string, nat>): nat
    decreases |m.Keys|
  {
    if m == map[] then 0
    else
      var k :| k in m;
      m[k] + MapSum(m - {k})
  }

  /** The sum does not depend on which key is taken first. */
  lemma {:induction false} MapSumRemove(m: map<string, nat>, k: string)
    requires k in m
    ensures MapSum(m) == m[k] + MapSum(m - {k})
    decreases |m.Keys|
  {
    var j :| j in m && MapSum(m) == m[j] + MapSum(m - {j});
    if j != k {
      MapSumRemove(m - {j}, k);
      MapSumRemove(m - {k}, j);
      assert m - {j} - {k} == m - {k} - {j};
    }
  }

  /** Raising one count by one raises the sum by one. */
  lemma MapSumIncrement(m: map<string, nat>, k: string)
    ensures MapSum(m[k := (if k in m then m[k] else 0) + 1]) == MapSum(m) + 1
  {
    var m' := m[k := (if k in m then m[k] else 0) + 1];
    MapSumRemove(m', k);
    assert m' - {k} == m - {k};
    if k in m {
      MapSumRemove(m, k);
    } else {
      assert m - {k} == m;
    }
  }

  /** The `byLevel` counts add up to the number of entries. */
  lemma {:induction false} LevelCountsSum(logs: seq<LogEntry>)
    ensures MapSum(LevelCounts(logs)) == |logs|
  {
    if logs != [] {
      LevelCountsSum(logs[..|logs| - 1]);
      MapSumIncrement(LevelCounts(logs[..|logs| - 1]), logs[|logs| - 1].level);
    }
  }

  /** `errors` and `warnings` are the `byLevel` counts of ERROR and WARN (0 when absent). */
  lemma StatsAgree(logs: seq<LogEntry>)
    ensures Count(logs, HasLevel("ERROR")) == (if "ERROR" in LevelCounts(logs) then LevelCounts(logs)["ERROR"] else 0)
    ensures Count(logs, HasLevel("WARN")) == (if "WARN" in LevelCounts(logs) then LevelCounts(logs)["WARN"] else 0)
  {
    LevelCountsCount(logs, "ERROR");
    LevelCountsCount(logs, "WARN");
  }
}
