/**
 The collector (server.py): the `report_status` ingest endpoint, which
 appends one audit row per report, and the `dashboard` query, which reads
 the ten newest rows and the compliance score. The database is an in-memory
 sequence of rows plus the id the next insert receives.
 */
module Server {
  import opened Models

  /** A decoded JSON request body whose values are strings. */
  type Payload = map<string, string>

  /** The keys `report_status` reads, in the order it reads them. */
  const RequiredKeys: seq<string> := ["hostname", "control_id", "status", "details"]

  /** The only status the compliance score counts as a failure. */
  const FailStatus := "FAIL"

  /** How many rows the dashboard shows. */
  const RecentLimit: nat := 10

  datatype Response =
    | Json(code: nat, body: map<string, string>)
      /** A lookup of a missing key raised KeyError; Flask answers it with status 500. */
    | UncaughtKeyError(key: string)
  {
    function StatusCode(): (status: nat) {
      if Json? then code else 500
    }
  }

  const ReportReceived := Json(200, map["message" := "Report Received"])

  /** The first of `keys` absent from `p`: the key whose lookup raises KeyError. */
  function FirstMissing(keys: seq<string>, p: Payload): (r: Option<string>)
    ensures r.None? <==> forall i :: 0 <= i < |keys| ==> keys[i] in p
    ensures r.Some? ==> exists i :: 0 <= i < |keys| && keys[i] == r.value && keys[i] !in p
                                    && forall j :: 0 <= j < i ==> keys[j] in p
  {
    if keys == [] then None
    else if keys[0] !in p then Some(keys[0])
    else
      var r := FirstMissing(keys[1..], p);
      assert r.Some? ==> exists i :: 0 <= i < |keys| && keys[i] == r.value && keys[i] !in p
                                     && forall j :: 0 <= j < i ==> keys[j] in p by {
        if r.Some? {
          var i :| 0 <= i < |keys| - 1 && keys[1..][i] == r.value && keys[1..][i] !in p
                   && forall j :: 0 <= j < i ==> keys[1..][j] in p;
          assert keys[i + 1] == r.value;
        }
      }
      r
  }

  predicate HasRequiredKeys(p: Payload) {
    "hostname" in p && "control_id" in p && "status" in p && "details" in p
  }

  /** No lookup raises exactly when all four keys are present. */
  lemma NothingMissingIffRequiredKeys(p: Payload)
    ensures FirstMissing(RequiredKeys, p).None? <==> HasRequiredKeys(p)
  {
    assert RequiredKeys[0] == "hostname" && RequiredKeys[1] == "control_id";
    assert RequiredKeys[2] == "status" && RequiredKeys[3] == "details";
  }

  // ---------------------------------------------------------------------
  // The store and report_status
  // ---------------------------------------------------------------------

  /** The audit table: its rows in insertion order and the id the next insert receives. */
  datatype Store = Store(entries: seq<AuditLog>, nextId: nat)

  /**
   What the table keeps true: ids start at 1, strictly increase in insertion
   order and stay below the next id, so `id` is a primary key.
   */
  ghost predicate WellFormed(s: Store) {
    && 1 <= s.nextId
    && (forall i, j :: 0 <= i < j < |s.entries| ==> s.entries[i].id < s.entries[j].id)
    && (forall i :: 0 <= i < |s.entries| ==> 1 <= s.entries[i].id < s.nextId)
  }

  lemma IdsAreUnique(s: Store, i: int, j: int)
    requires WellFormed(s)
    requires 0 <= i < |s.entries| && 0 <= j < |s.entries| && i != j
    ensures s.entries[i].id != s.entries[j].id
  {
  }

  datatype IngestResult = IngestResult(store: Store, response: Response)

  /** Row `e` is the one `report_status` builds from `p`, with id `id`, inserted at time `now`. */
  predicate RowFrom(e: AuditLog, p: Payload, id: nat, now: DateTime)
    requires HasRequiredKeys(p)
  {
    && e.id == id
    && e.hostname == p["hostname"] && e.controlId == p["control_id"]
    && e.status == p["status"] && e.details == Some(p["details"])
    && e.timestamp == now
  }

  /** One call of `report_status` on a store, with `now` the clock at insertion. */
  function Ingest(s: Store, p: Payload, now: DateTime): (r: IngestResult)
    ensures r.response.StatusCode() == 200 <==> HasRequiredKeys(p)
    ensures r.response.StatusCode() == 200 ==> r.response == ReportReceived
    ensures !HasRequiredKeys(p) ==> r.store == s
    ensures HasRequiredKeys(p) ==>
      && |r.store.entries| == |s.entries| + 1
      && r.store.entries[..|s.entries|] == s.entries
      && RowFrom(r.store.entries[|s.entries|], p, s.nextId, now)
      && r.store.nextId == s.nextId + 1
    ensures WellFormed(s) ==> WellFormed(r.store)
  {
    NothingMissingIffRequiredKeys(p);
    var missing := FirstMissing(RequiredKeys, p);
    if missing.Some? then
      IngestResult(s, UncaughtKeyError(missing.value))
    else
      var e := AuditLog(s.nextId, p["hostname"], p["control_id"], p["status"], Some(p["details"]), now);
      IngestResult(Store(s.entries + [e], s.nextId + 1), ReportReceived)
  }

  /** The same payload ingested once per clock reading, in order. */
  function IngestRepeatedly(s: Store, p: Payload, clocks: seq<DateTime>): (t: Store) {
    if clocks == [] then s
    else Ingest(IngestRepeatedly(s, p, clocks[..|clocks| - 1]), p, clocks[|clocks| - 1]).store
  }

  /** `rows` are the rows built from `p` at the clock readings `clocks`, with consecutive ids from `firstId`. */
  predicate RowsFrom(rows: seq<AuditLog>, p: Payload, firstId: nat, clocks: seq<DateTime>)
    requires HasRequiredKeys(p)
  {
    |rows| == |clocks| && forall k :: 0 <= k < |rows| ==> RowFrom(rows[k], p, firstId + k, clocks[k])
  }

  lemma RowsFromSnoc(rows: seq<AuditLog>, e: AuditLog, p: Payload, firstId: nat, clocks: seq<DateTime>, now: DateTime)
    requires HasRequiredKeys(p)
    requires RowsFrom(rows, p, firstId, clocks) && RowFrom(e, p, firstId + |rows|, now)
    ensures RowsFrom(rows + [e], p, firstId, clocks + [now])
  {
    forall k | 0 <= k < |rows| + 1
      ensures RowFrom((rows + [e])[k], p, firstId + k, (clocks + [now])[k])
    {
      if k < |rows| {
        assert (rows + [e])[k] == rows[k] && (clocks + [now])[k] == clocks[k];
      }
    }
  }

  /**
   There is no deduplication: ingesting one payload k times adds k rows,
   each a copy of the payload with its own id and its own insertion time.
   */
  lemma {:induction false} NoDeduplication(s: Store, p: Payload, clocks: seq<DateTime>)
    requires WellFormed(s) && HasRequiredKeys(p)
    ensures var t := IngestRepeatedly(s, p, clocks);
      && WellFormed(t)
      && t.nextId == s.nextId + |clocks|
      && |t.entries| == |s.entries| + |clocks|
      && t.entries[..|s.entries|] == s.entries
      && RowsFrom(t.entries[|s.entries|..], p, s.nextId, clocks)
  {
    if clocks != [] {
      var n := |clocks| - 1;
      NoDeduplication(s, p, clocks[..n]);
      var t0 := IngestRepeatedly(s, p, clocks[..n]);
      var t := Ingest(t0, p, clocks[n]).store;
      assert t == IngestRepeatedly(s, p, clocks);
      var e := t.entries[|t0.entries|];
      assert t.entries == t0.entries + [e];
      assert t.entries[|s.entries|..] == t0.entries[|s.entries|..] + [e];
      RowsFromSnoc(t0.entries[|s.entries|..], e, p, s.nextId, clocks[..n], clocks[n]);
      assert clocks[..n] + [clocks[n]] == clocks;
    }
  }

  // ---------------------------------------------------------------------
  // dashboard: the compliance score
  // ---------------------------------------------------------------------

  /** The number of rows whose status is exactly "FAIL". */
  function CountFail(entries: seq<AuditLog>): (n: nat)
    ensures n <= |entries|
  {
    if entries == [] then 0
    else (if entries[0].status == FailStatus then 1 else 0) + CountFail(entries[1..])
  }

  /** No failure is counted exactly when no status is exactly "FAIL"; any other string counts as compliant. */
  lemma {:induction false} CountFailZeroIff(entries: seq<AuditLog>)
    ensures CountFail(entries) == 0 <==> forall i :: 0 <= i < |entries| ==> entries[i].status != FailStatus
  {
    if entries != [] {
      CountFailZeroIff(entries[1..]);
      assert forall i :: 1 <= i < |entries| ==> entries[i] == entries[1..][i - 1];
    }
  }

  /** Every row is counted exactly when every status is "FAIL". */
  lemma {:induction false} CountFailAllIff(entries: seq<AuditLog>)
    ensures CountFail(entries) == |entries| <==> forall i :: 0 <= i < |entries| ==> entries[i].status == FailStatus
  {
    if entries != [] {
      CountFailAllIff(entries[1..]);
      assert forall i :: 1 <= i < |entries| ==> entries[i] == entries[1..][i - 1];
    }
  }

  lemma {:induction false} CountFailAppend(entries: seq<AuditLog>, e: AuditLog)
    ensures CountFail(entries + [e]) == CountFail(entries) + (if e.status == FailStatus then 1 else 0)
  {
    if entries != [] {
      assert (entries + [e])[1..] == entries[1..] + [e];
      CountFailAppend(entries[1..], e);
    }
  }

  /**
   The compliance score (T - F) / T * 100, with T the number of rows and F
   the number of failures; 100 for an empty table. Exact, before rounding.
   */
  function ComplianceScore(entries: seq<AuditLog>): (score: real)
    ensures 0.0 <= score <= 100.0
    ensures |entries| == 0 ==> score == 100.0
    ensures |entries| > 0 ==> score * (|entries| as real) == 100.0 * ((|entries| - CountFail(entries)) as real)
  {
    var total := |entries|;
    var failed := CountFail(entries);
    if total > 0 then Percent(total - failed, total) else 100.0
  }

  /** `part / whole * 100` as an exact real. */
  function Percent(part: nat, whole: nat): (p: real)
    requires part <= whole && 0 < whole
    ensures 0.0 <= p <= 100.0
    ensures p * (whole as real) == 100.0 * (part as real)
  {
    var a, b := part as real, whole as real;
    var q := a / b;
    assert q * b == a;
    assert 0.0 <= q <= 1.0;
    assert (q * 100.0) * b == 100.0 * (q * b);
    q * 100.0
  }

  /** What the score equation says for a score of 100 and a score of 0. */
  lemma ScoreEquation(score: real, t: nat, f: nat)
    requires 0 < t && f <= t
    requires score * (t as real) == 100.0 * ((t - f) as real)
    ensures score == 100.0 <==> f == 0
    ensures score == 0.0 <==> f == t
  {
    if score == 100.0 {
      assert 100.0 * (t as real) == 100.0 * ((t - f) as real);
    }
    if score == 0.0 {
      assert 0.0 == 100.0 * ((t - f) as real);
    }
  }

  /** The score is 100 exactly when no row failed (in particular when there are none). */
  lemma ScoreFullIffNoFailure(entries: seq<AuditLog>)
    ensures ComplianceScore(entries) == 100.0 <==> forall i :: 0 <= i < |entries| ==> entries[i].status != FailStatus
  {
    CountFailZeroIff(entries);
    if |entries| > 0 {
      ScoreEquation(ComplianceScore(entries), |entries|, CountFail(entries));
    }
  }

  /** The score is 0 exactly when there are rows and every one of them failed. */
  lemma ScoreZeroIffAllFail(entries: seq<AuditLog>)
    ensures ComplianceScore(entries) == 0.0 <==>
      |entries| > 0 && forall i :: 0 <= i < |entries| ==> entries[i].status == FailStatus
  {
    CountFailAllIff(entries);
    if |entries| > 0 {
      ScoreEquation(ComplianceScore(entries), |entries|, CountFail(entries));
    }
  }

  /** A successful ingest adds one to T, and one to F exactly when the stored status is "FAIL". */
  lemma IngestCounts(s: Store, p: Payload, now: DateTime)
    requires HasRequiredKeys(p)
    ensures var t := Ingest(s, p, now).store;
      && |t.entries| == |s.entries| + 1
      && CountFail(t.entries) == CountFail(s.entries) + (if p["status"] == FailStatus then 1 else 0)
  {
    var t := Ingest(s, p, now).store;
    assert t.entries == s.entries + [t.entries[|s.entries|]];
    CountFailAppend(s.entries, t.entries[|s.entries|]);
  }

  // ---------------------------------------------------------------------
  // dashboard: the newest rows
  // ---------------------------------------------------------------------

  function Min(a: nat, b: nat): (m: nat) {
    if a <= b then a else b
  }

  /** Ordered by timestamp, newest first (rows with equal timestamps in any order). */
  predicate NewestFirst(s: seq<AuditLog>) {
    forall i, j :: 0 <= i < j < |s| ==> NotAfter(s[j].timestamp, s[i].timestamp)
  }

  /**
   `logs` is an answer to "the `limit` newest rows of `entries`": as many
   rows as the limit allows, each taken from the table, newest first, and no
   row left out is newer than a row returned.
   */
  ghost predicate IsRecentLogs(entries: seq<AuditLog>, logs: seq<AuditLog>, limit: nat) {
    && |logs| == Min(limit, |entries|)
    && multiset(logs) <= multiset(entries)
    && NewestFirst(logs)
    && forall e, r :: e in multiset(entries) - multiset(logs) && r in logs ==> NotAfter(e.timestamp, r.timestamp)
  }

  function InsertNewestFirst(e: AuditLog, s: seq<AuditLog>): (r: seq<AuditLog>)
    requires NewestFirst(s)
    ensures NewestFirst(r)
    ensures multiset(r) == multiset(s) + multiset{e}
  {
    if s == [] then [e]
    else if NotAfter(s[0].timestamp, e.timestamp) then
      assert forall j :: 0 <= j < |s| ==> NotAfter(s[j].timestamp, e.timestamp) by {
        forall j | 0 <= j < |s| ensures NotAfter(s[j].timestamp, e.timestamp) {
          if j > 0 { NotAfterTransitive(s[j].timestamp, s[0].timestamp, e.timestamp); }
        }
      }
      [e] + s
    else
      assert s == [s[0]] + s[1..];
      var r := InsertNewestFirst(e, s[1..]);
      NotAfterTotal(s[0].timestamp, e.timestamp);
      assert forall j :: 0 <= j < |r| ==> NotAfter(r[j].timestamp, s[0].timestamp) by {
        forall j | 0 <= j < |r| ensures NotAfter(r[j].timestamp, s[0].timestamp) {
          assert r[j] in multiset(r);
          if r[j] != e {
            assert r[j] in multiset(s[1..]);
            var k :| 0 <= k < |s[1..]| && s[1..][k] == r[j];
            assert s[k + 1] == r[j];
          }
        }
      }
      [s[0]] + r
  }

  function SortNewestFirst(s: seq<AuditLog>): (r: seq<AuditLog>)
    ensures NewestFirst(r)
    ensures multiset(r) == multiset(s)
  {
    if s == [] then []
    else
      assert s == [s[0]] + s[1..];
      InsertNewestFirst(s[0], SortNewestFirst(s[1..]))
  }

  /** Cutting a newest-first sequence: what is cut off is no newer than what is kept. */
  lemma SplitNewestFirst(s: seq<AuditLog>, k: nat)
    requires NewestFirst(s) && k <= |s|
    ensures multiset(s) - multiset(s[..k]) == multiset(s[k..])
    ensures forall e, r :: e in multiset(s[k..]) && r in s[..k] ==> NotAfter(e.timestamp, r.timestamp)
  {
    assert s == s[..k] + s[k..];
    forall e, r | e in multiset(s[k..]) && r in s[..k]
      ensures NotAfter(e.timestamp, r.timestamp)
    {
      var a :| 0 <= a < |s[k..]| && s[k..][a] == e;
      var b :| 0 <= b < k && s[..k][b] == r;
      assert s[k + a] == e && s[b] == r;
    }
  }

  /** The first `Min(limit, |entries|)` rows of a newest-first permutation of the table answer the query. */
  lemma SortedPrefixIsRecent(entries: seq<AuditLog>, sorted: seq<AuditLog>, limit: nat)
    requires NewestFirst(sorted) && multiset(sorted) == multiset(entries)
    ensures IsRecentLogs(entries, sorted[..Min(limit, |sorted|)], limit)
    ensures |entries| <= limit ==> sorted[..Min(limit, |sorted|)] == sorted
  {
    assert |multiset(sorted)| == |sorted| && |multiset(entries)| == |entries|;
    var k := Min(limit, |sorted|);
    SplitNewestFirst(sorted, k);
    assert sorted == sorted[..k] + sorted[k..];
    assert multiset(sorted) == multiset(sorted[..k]) + multiset(sorted[k..]);
  }

  /** The rows the dashboard lists: `order_by(timestamp.desc()).limit(limit)`. */
  function RecentLogs(entries: seq<AuditLog>, limit: nat): (logs: seq<AuditLog>)
    ensures IsRecentLogs(entries, logs, limit)
    ensures |entries| <= limit ==> multiset(logs) == multiset(entries)
  {
    var sorted := SortNewestFirst(entries);
    SortedPrefixIsRecent(entries, sorted, limit);
    sorted[..Min(limit, |sorted|)]
  }

  /** Of two rows with distinct timestamps, the dashboard lists the later one first. */
  lemma RecentOfTwo(older: AuditLog, newer: AuditLog)
    requires NotAfter(older.timestamp, newer.timestamp) && older.timestamp != newer.timestamp
    ensures RecentLogs([older, newer], RecentLimit) == [newer, older]
  {
    var logs := RecentLogs([older, newer], RecentLimit);
    assert |logs| == 2;
    assert multiset(logs) == multiset{older, newer};
    assert logs[0] in multiset(logs) && logs[1] in multiset(logs);
    NotAfterStrict(older.timestamp, newer.timestamp);
    assert logs[0] == newer;
    assert logs == [newer, older];
  }

  /** What `dashboard` hands to the template. */
  datatype DashboardView = DashboardView(logs: seq<AuditLog>, score: real)

  // ---------------------------------------------------------------------
  // The collector's table, updated in place
  // ---------------------------------------------------------------------

  class AuditStore {
    var entries: seq<AuditLog>
    var nextId: nat

    ghost predicate Valid()
      reads this
    {
      WellFormed(Store(entries, nextId))
    }

    /** A freshly created, empty table. */
    constructor ()
      ensures Valid()
      ensures entries == [] && nextId == 1
    {
      entries := [];
      nextId := 1;
    }

    /**
     `report_status`: read the four keys, then add and commit one row that
     takes the next id and the clock reading `now`.
     */
    method ReportStatus(payload: Payload, now: DateTime) returns (response: Response)
      requires Valid()
      modifies this
      ensures Valid()
      ensures Ingest(Store(old(entries), old(nextId)), payload, now) == IngestResult(Store(entries, nextId), response)
    {
      NothingMissingIffRequiredKeys(payload);
      var missing := FirstMissing(RequiredKeys, payload);
      if missing.Some? {
        response := UncaughtKeyError(missing.value);
        return;
      }
      var row := AuditLog(nextId, payload["hostname"], payload["control_id"], payload["status"],
                          Some(payload["details"]), now);
      entries := entries + [row];
      nextId := nextId + 1;
      response := ReportReceived;
    }

    /** `dashboard`: the ten newest rows and the compliance score, read without changing the table. */
    method Dashboard() returns (view: DashboardView)
      ensures IsRecentLogs(entries, view.logs, RecentLimit)
      ensures |entries| <= RecentLimit ==> multiset(view.logs) == multiset(entries)
      ensures view.score == ComplianceScore(entries)
    {
      var logs := RecentLogs(entries, RecentLimit);
      var score := ComplianceScore(entries);
      view := DashboardView(logs, score);
    }
  }
}
