# OpenGRC-Lite in Dafny

OpenGRC-Lite is a small compliance-monitoring pipeline. An agent runs two
security checks on its host, a (simulated) firewall check and a
password-policy check, and sleeps ten seconds between cycles. It posts each
result as a JSON report to a collector. The collector appends every report to
an audit table. Its dashboard shows the ten newest rows and a compliance
score, the share of rows whose status is not `FAIL`.

This project models the sequential logic under that glue and proves
properties of it:

- `models.dfy`, module `Models`: the `AuditLog` row, Python `datetime`
  values, and `to_dict` with the `YYYY-MM-DD HH:MM:SS` timestamp format.
- `server.dfy`, module `Server`: the ingest endpoint `report_status` and the
  `dashboard` query. The database is a class `AuditStore` holding the rows as
  a sequence and the id the next insert receives. `report_status` is a method
  that appends to that sequence. It is proved against the function `Ingest`.
  The dashboard reads the newest rows (`RecentLogs`) and the score
  (`ComplianceScore`), both functions of the rows.
- `agent.dfy`, module `Agent`: the checks, the two payloads of a cycle, and one
  cycle of `run_agent` as a method with a loop over the payloads. It returns
  the cycle's observable events: checks run, payloads posted, lines printed.
  It is proved against the function `CycleTrace`.
- `pipeline.dfy`, module `Pipeline`: what an agent cycle does to the audit
  table once its posts arrive.

Inputs that stand for the outside world:

- the collector's clock at insertion (`now`);
- the firewall check's random draw (`drawAboveTenth`, meaning `random.random() > 0.1`);
- whether each `requests.post` returned or raised (`postReturns(i)` for the i-th attempt of the cycle);
- the agent's host name.

Three behaviours of the code worth stating:

- A report missing a required key makes the dictionary lookup raise `KeyError`. Flask answers that with status 500, a server error.
- Ingest does not validate the status value. Any string is stored. Only the exact string `FAIL` lowers the score.
- The dashboard query does not order rows that have equal timestamps. `IsRecentLogs` leaves their order open, and does not assume id order.

## Model

| member | source | states |
|---|---|---|
| `Models.FormatTimestamp` | models.py:19 | the formatted timestamp is 19 characters: a 4-digit year, `-`, month, `-`, day, a space, then `HH:MM:SS`, with every field zero-padded digits |
| `Models.FormatThenParse` | models.py:19 | parsing the formatted timestamp gives back year, month, day, hour, minute and second; the microseconds are dropped |
| `Models.ParseThenFormat` | models.py:19 | any string the parser accepts is exactly the format of what it parsed (the other direction of the round trip) |
| `Models.FormatDeterminesSeconds` | models.py:19 | two datetimes format alike if and only if they agree on every field down to the second |
| `Models.ToDict` | models.py:14-20 | the dictionary has exactly the keys hostname, control, status and timestamp; `control` holds the control id; `id` and `details` are absent; the timestamp parses back to the row's time to the second |
| `Models.ToDictForgets` | models.py:14-20 | two rows have equal dictionaries if and only if they agree on hostname, control id, status and timestamp to the second; id, details and microseconds are what is lost |
| `Server.FirstMissing` | server.py:15-20 | finds nothing if and only if every key is present; otherwise it finds a missing key with every key read before it present (the lookup that raises) |
| `Server.NothingMissingIffRequiredKeys` | server.py:16-19 | no lookup raises if and only if `hostname`, `control_id`, `status` and `details` are all present |
| `Server.Ingest` | server.py:12-23 | status 200 with `{"message": "Report Received"}` if and only if all four keys are present; then exactly one row is appended with the next id, the payload's four fields unchanged, and the insertion clock as timestamp; otherwise the store is unchanged; the table invariant (increasing, unique ids) is kept |
| `Server.NoDeduplication` | server.py:15-22 | one payload ingested k times adds k rows, each a copy of the payload with its own consecutive id and its own insertion time; earlier rows are untouched |
| `Server.IdsAreUnique` | models.py:7 | in a well-formed table no two rows share an id (`id` is the primary key) |
| `Server.CountFail` | server.py:33 | the failure count F is at most the row count T |
| `Server.CountFailZeroIff` | server.py:33 | F is 0 if and only if no status is exactly `FAIL`; any other string, `fail` or `ERROR` included, counts as compliant |
| `Server.CountFailAllIff` | server.py:33 | F equals T if and only if every status is exactly `FAIL` |
| `Server.CountFailAppend` | server.py:33 | appending a row raises the failure count by one exactly when its status is `FAIL` |
| `Server.ComplianceScore` | server.py:32-36 | the score lies in [0, 100]; it is 100 for an empty table; otherwise score · T = 100 · (T − F) |
| `Server.Percent` | server.py:36 | the exact percentage lies in [0, 100] and times the whole gives 100 times the part |
| `Server.ScoreEquation` | server.py:36 | from score · T = 100 · (T − F): the score is 100 if and only if F = 0, and 0 if and only if F = T |
| `Server.ScoreFullIffNoFailure` | server.py:32-36 | the exact score is 100 if and only if no row has status `FAIL`, which includes the empty table |
| `Server.ScoreZeroIffAllFail` | server.py:32-36 | the exact score is 0 if and only if the table is not empty and every row has status `FAIL` |
| `Server.IngestCounts` | server.py:21-33 | a successful ingest raises T by one, and raises F by one exactly when the payload's status is `FAIL` |
| `Server.InsertNewestFirst` | server.py:29 | inserting a row into a newest-first sequence keeps it newest-first and adds exactly that row |
| `Server.SortNewestFirst` | server.py:29 | the sorted rows are newest-first and a permutation of the table |
| `Server.SplitNewestFirst` | server.py:29 | cutting a newest-first sequence leaves out exactly the tail, and no row left out is newer than a row kept |
| `Server.SortedPrefixIsRecent` | server.py:29 | the first min(limit, T) rows of any newest-first permutation of the table answer the recent-rows query |
| `Server.RecentLogs` | server.py:29 | at most `limit` rows, all from the table, newest first, and no row left out is newer than a row returned; when the table has at most `limit` rows, all of them are returned |
| `Server.RecentOfTwo` | server.py:29 | of two rows with distinct timestamps, the later one is listed first |
| `Server.AuditStore.constructor` | server.py:40-42 | the table starts empty and the first id is 1 |
| `Server.AuditStore.ReportStatus` | server.py:11-23 | the method's new rows, next id and response are exactly those of `Ingest` on the old table; the table invariant is kept |
| `Server.AuditStore.Dashboard` | server.py:26-38 | returns ten newest rows as `RecentLogs` specifies (all rows when there are at most ten) and the compliance score; it modifies nothing |
| `Agent.CheckFirewall` | agent.py:9-15 | the status is `PASS` or `FAIL` and nothing else; it is `PASS` if and only if the draw is above 0.1; PASS carries the "active" message and FAIL the "CRITICAL" one |
| `Agent.CheckPasswordPolicy` | agent.py:17-18 | always PASS with "Password complexity requirements met." |
| `Agent.Report.ToJson` | agent.py:30-41 | the payload has exactly the keys hostname, control_id, status and details, holding the report's fields unchanged |
| `Agent.CyclePayloads` | agent.py:29-42 | exactly two payloads: first the firewall control `A.13.1 (Network)`, then the password control `A.9.4 (Access)`, each with the host name and its own check's status and details |
| `Agent.SendTraceShape` | agent.py:45-50 | each payload gets exactly one post, in list order, with no retry, followed by its own line: "sent" whenever the post returned, "error" whenever it raised, whatever happened to the other posts |
| `Agent.PostedPayloadsAppend` | agent.py:45-47 | the posts of two consecutive stretches of events are the posts of the first followed by those of the second |
| `Agent.SendTracePosts` | agent.py:45-47 | the payloads posted by the send loop are the payload list's JSON forms, one each, in order |
| `Agent.CycleShape` | agent.py:23-50 | a cycle is six events: both checks first, then firewall post and its line, then password post and its line |
| `Agent.CyclePosts` | agent.py:29-47 | a cycle posts exactly two payloads, the firewall report and then the password report |
| `Agent.RunCycle` | agent.py:20-52 | the loop's events are exactly `CycleTrace`: the two checks, then one post and one line per payload |
| `Pipeline.ReportAccepted` | server.py:15-23 | every report the agent builds has all four keys, so the collector acknowledges it and stores its four fields unchanged |
| `Pipeline.CycleEffect` | agent.py:29-47 | a delivered cycle appends the firewall row, then the password row (status PASS), both for this host; F grows by one exactly when the firewall check failed |
| `Pipeline.FailThenPass` | server.py:29-36 | from an empty table, a FAIL report and then a PASS report give score 50, with the dashboard listing the later row first |
| `Pipeline.HalfScore` | server.py:36 | two rows with one failure score exactly 50 |

## Left out

- Flask routing, `request.json` decoding, `jsonify` and `render_template` are left out. The payload is a `map<string, string>` and the dashboard result is a `DashboardView` of rows and score.
- JSON values other than strings are left out: `null`, numbers and nested objects. So is a body that is not a JSON object. Such bodies raise in other ways. A `null` in a NOT NULL column would fail at commit.
- The body of Flask's 500 page is left out. The model records only the key whose lookup raised.
- SQLAlchemy, the session and SQLite are replaced by the `AuditStore` sequence and its id counter. This leaves out storage failures and existing database files. It also leaves out the `String(n)` widths, which no ingest code checks.
- ComplianceScore: states the exact rational score. Python's `round(..., 1)` on floats and the integer `100` of the empty case are not modelled.
- ScoreFullIffNoFailure: the converse holds only for the exact score. The dashboard shows the score rounded to one decimal, and one `FAIL` among 10000 rows gives 99.99, shown as 100.0.
- ScoreZeroIffAllFail: the converse holds only for the exact score. One non-`FAIL` row among 10000 gives 0.01, shown as 0.0.
- FormatTimestamp: always pads the year to four digits. Python hands `%Y` to the C library's `strftime`, which on some platforms prints years below 1000 without leading zeros.
- The clock (`datetime.utcnow`), the random draw, `socket.gethostname` and the outcome of `requests.post` are parameters. The agent's startup line, the server URL and the text of printed lines other than their kind are left out.
- `time.sleep(10)` and the endless `while True` are left out. `RunCycle` models one iteration of the loop.
- RunCycle: a `requests.post` that never returns is left out. The code passes no timeout, so such a post would block the cycle forever. The model assumes every post either returns or raises.
- Concurrent requests to the collector are left out. The code leaves them to the database.
