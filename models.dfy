/**
 The record schema of the collector's audit table (models.py): the `AuditLog`
 row, the `datetime` values its `timestamp` column holds, and the `to_dict`
 serialiser with its `%Y-%m-%d %H:%M:%S` timestamp format.
 */
module Models {

  datatype Option<+T> = None | Some(value: T)

  /** The year range of Python's `datetime` (MINYEAR and MAXYEAR). */
  const MinYear := 1
  const MaxYear := 9999

  predicate IsLeapYear(year: int) {
    year % 4 == 0 && (year % 100 != 0 || year % 400 == 0)
  }

  function DaysInMonth(year: int, month: int): (days: int)
    requires 1 <= month <= 12
    ensures 28 <= days <= 31
  {
    if month == 2 then (if IsLeapYear(year) then 29 else 28)
    else if month == 4 || month == 6 || month == 9 || month == 11 then 30
    else 31
  }

  /** The fields of a naive Python `datetime`, before its range checks. */
  datatype DateTimeFields = DateTimeFields(
    year: int, month: int, day: int,
    hour: int, minute: int, second: int, microsecond: int)
  {
    predicate Valid() {
      && MinYear <= year <= MaxYear
      && 1 <= month <= 12
      && 1 <= day <= DaysInMonth(year, month)
      && 0 <= hour < 24
      && 0 <= minute < 60
      && 0 <= second < 60
      && 0 <= microsecond < 1000000
    }
  }

  /** A value of Python's `datetime`: every field in range. */
  type DateTime = d: DateTimeFields | d.Valid() witness DateTimeFields(1970, 1, 1, 0, 0, 0, 0)

  /** The datetime with its sub-second part cleared. */
  function WholeSeconds(t: DateTime): (r: DateTime)
    ensures r.microsecond == 0
  {
    t.(microsecond := 0)
  }

  /** `a <= b` on datetimes: field by field, most significant first. */
  predicate NotAfter(a: DateTime, b: DateTime) {
    if a.year != b.year then a.year < b.year
    else if a.month != b.month then a.month < b.month
    else if a.day != b.day then a.day < b.day
    else if a.hour != b.hour then a.hour < b.hour
    else if a.minute != b.minute then a.minute < b.minute
    else if a.second != b.second then a.second < b.second
    else a.microsecond <= b.microsecond
  }

  lemma NotAfterTotal(a: DateTime, b: DateTime)
    ensures NotAfter(a, b) || NotAfter(b, a)
  {
  }

  lemma NotAfterTransitive(a: DateTime, b: DateTime, c: DateTime)
    requires NotAfter(a, b) && NotAfter(b, c)
    ensures NotAfter(a, c)
  {
  }

  lemma NotAfterStrict(a: DateTime, b: DateTime)
    requires NotAfter(a, b) && a != b
    ensures !NotAfter(b, a)
  {
  }

  // ---------------------------------------------------------------------
  // strftime("%Y-%m-%d %H:%M:%S")
  // ---------------------------------------------------------------------

  predicate IsDigit(c: char) {
    '0' <= c <= '9'
  }

  function DigitChar(d: int): (c: char)
    requires 0 <= d <= 9
    ensures IsDigit(c)
  {
    ('0' as int + d) as char
  }

  function DigitValue(c: char): (d: int) {
    c as int - '0' as int
  }

  /** Zero-padded two-digit decimal, as `%m`, `%d`, `%H`, `%M` and `%S` print. */
  function Pad2(n: int): (s: string)
    requires 0 <= n < 100
  {
    [DigitChar(n / 10), DigitChar(n % 10)]
  }

  /** Zero-padded four-digit decimal, as `%Y` prints. */
  function Pad4(n: int): (s: string)
    requires 0 <= n < 10000
  {
    Pad2(n / 100) + Pad2(n % 100)
  }

  /** The positions of the separators in `YYYY-MM-DD HH:MM:SS`. */
  predicate IsSeparatorPosition(i: int) {
    i == 4 || i == 7 || i == 10 || i == 13 || i == 16
  }

  /** The fixed-width shape `YYYY-MM-DD HH:MM:SS`: 19 characters, a digit everywhere but the separators. */
  predicate IsTimestampShape(s: string) {
    && |s| == 19
    && s[4] == '-' && s[7] == '-' && s[10] == ' ' && s[13] == ':' && s[16] == ':'
    && forall i :: 0 <= i < 19 && !IsSeparatorPosition(i) ==> IsDigit(s[i])
  }

  function FormatTimestamp(t: DateTime): (s: string)
    ensures IsTimestampShape(s)
  {
    Pad4(t.year) + "-" + Pad2(t.month) + "-" + Pad2(t.day) + " "
      + Pad2(t.hour) + ":" + Pad2(t.minute) + ":" + Pad2(t.second)
  }

  function Number2(s: string, i: nat): (n: int)
    requires i + 2 <= |s|
  {
    10 * DigitValue(s[i]) + DigitValue(s[i + 1])
  }

  function Number4(s: string, i: nat): (n: int)
    requires i + 4 <= |s|
  {
    100 * Number2(s, i) + Number2(s, i + 2)
  }

  /**
   Reads a `YYYY-MM-DD HH:MM:SS` string back into a datetime (with no
   sub-second part); None when the string has another shape or names no
   valid date and time.
   */
  function ParseTimestamp(s: string): (r: Option<DateTime>)
    ensures r.Some? ==> IsTimestampShape(s) && r.value.microsecond == 0
  {
    if !IsTimestampShape(s) then None
    else
      var d := DateTimeFields(Number4(s, 0), Number2(s, 5), Number2(s, 8),
                              Number2(s, 11), Number2(s, 14), Number2(s, 17), 0);
      if d.Valid() then var t: DateTime := d; Some(t) else None
  }

  lemma Pad2Number(n: int)
    requires 0 <= n < 100
    ensures Number2(Pad2(n), 0) == n
  {
  }

  lemma Pad4Number(n: int)
    requires 0 <= n < 10000
    ensures Number4(Pad4(n), 0) == n
  {
    var s := Pad4(n);
    Pad2Number(n / 100);
    Pad2Number(n % 100);
    assert s[..2] == Pad2(n / 100) && s[2..] == Pad2(n % 100);
    assert Number2(s, 0) == Number2(s[..2], 0);
    assert Number2(s, 2) == Number2(s[2..], 0);
  }

  /** Formatting then parsing gives back every field down to the second; the microseconds are dropped. */
  lemma {:induction false} FormatThenParse(t: DateTime)
    ensures ParseTimestamp(FormatTimestamp(t)) == Some(WholeSeconds(t))
  {
    var s := FormatTimestamp(t);
    assert s[0..4] == Pad4(t.year);
    assert s[5..7] == Pad2(t.month);
    assert s[8..10] == Pad2(t.day);
    assert s[11..13] == Pad2(t.hour);
    assert s[14..16] == Pad2(t.minute);
    assert s[17..19] == Pad2(t.second);
    Pad4Number(t.year);
    Pad2Number(t.month);
    Pad2Number(t.day);
    Pad2Number(t.hour);
    Pad2Number(t.minute);
    Pad2Number(t.second);
    assert Number4(s, 0) == Number4(s[0..4], 0);
    assert Number2(s, 5) == Number2(s[5..7], 0);
    assert Number2(s, 8) == Number2(s[8..10], 0);
    assert Number2(s, 11) == Number2(s[11..13], 0);
    assert Number2(s, 14) == Number2(s[14..16], 0);
    assert Number2(s, 17) == Number2(s[17..19], 0);
  }

  lemma Number2Pad(s: string, i: nat)
    requires i + 2 <= |s| && IsDigit(s[i]) && IsDigit(s[i + 1])
    ensures 0 <= Number2(s, i) < 100 && Pad2(Number2(s, i)) == s[i..i + 2]
  {
  }

  lemma Number4Pad(s: string, i: nat)
    requires i + 4 <= |s| && IsDigit(s[i]) && IsDigit(s[i + 1]) && IsDigit(s[i + 2]) && IsDigit(s[i + 3])
    ensures 0 <= Number4(s, i) < 10000 && Pad4(Number4(s, i)) == s[i..i + 4]
  {
    Number2Pad(s, i);
    Number2Pad(s, i + 2);
    var hi, lo := Number2(s, i), Number2(s, i + 2);
    assert (100 * hi + lo) / 100 == hi && (100 * hi + lo) % 100 == lo;
    assert s[i..i + 4] == s[i..i + 2] + s[i + 2..i + 4];
  }

  /** Parsing then formatting gives back the very string parsed. */
  lemma {:induction false} ParseThenFormat(s: string)
    requires ParseTimestamp(s).Some?
    ensures FormatTimestamp(ParseTimestamp(s).value) == s
  {
    var t := ParseTimestamp(s).value;
    Number4Pad(s, 0);
    Number2Pad(s, 5);
    Number2Pad(s, 8);
    Number2Pad(s, 11);
    Number2Pad(s, 14);
    Number2Pad(s, 17);
    assert s[4..5] == "-" && s[7..8] == "-" && s[10..11] == " " && s[13..14] == ":" && s[16..17] == ":";
    assert s == s[0..4] + s[4..5] + s[5..7] + s[7..8] + s[8..10] + s[10..11]
              + s[11..13] + s[13..14] + s[14..16] + s[16..17] + s[17..19];
  }

  /** Two datetimes print alike exactly when they agree on every field down to the second. */
  lemma FormatDeterminesSeconds(a: DateTime, b: DateTime)
    ensures FormatTimestamp(a) == FormatTimestamp(b) <==> WholeSeconds(a) == WholeSeconds(b)
  {
    if FormatTimestamp(a) == FormatTimestamp(b) {
      FormatThenParse(a);
      FormatThenParse(b);
    }
  }

  // ---------------------------------------------------------------------
  // The AuditLog row
  // ---------------------------------------------------------------------

  /**
   One row of the audit table. `id` is the primary key; `hostname`,
   `controlId` and `status` are NOT NULL columns, so they are plain strings;
   `details` is nullable; `timestamp` defaults to the clock at insertion.
   */
  datatype AuditLog = AuditLog(
    id: nat,
    hostname: string,
    controlId: string,
    status: string,
    details: Option<string>,
    timestamp: DateTime)

  /** The row's dictionary form: `control` holds the control id; `id` and `details` are not part of it. */
  function ToDict(log: AuditLog): (d: map<string, string>)
    ensures d.Keys == {"hostname", "control", "status", "timestamp"}
    ensures d["hostname"] == log.hostname
    ensures d["control"] == log.controlId
    ensures d["status"] == log.status
    ensures IsTimestampShape(d["timestamp"])
    ensures ParseTimestamp(d["timestamp"]) == Some(WholeSeconds(log.timestamp))
  {
    var stamp := FormatTimestamp(log.timestamp);
    FormatThenParse(log.timestamp);
    map[
      "hostname" := log.hostname,
      "control" := log.controlId,
      "status" := log.status,
      "timestamp" := stamp
    ]
  }

  /** `to_dict` forgets exactly the id, the details and the sub-second part of the timestamp. */
  lemma ToDictForgets(a: AuditLog, b: AuditLog)
    ensures ToDict(a) == ToDict(b) <==>
      && a.hostname == b.hostname
      && a.controlId == b.controlId
      && a.status == b.status
      && WholeSeconds(a.timestamp) == WholeSeconds(b.timestamp)
  {
    FormatDeterminesSeconds(a.timestamp, b.timestamp);
    if ToDict(a) == ToDict(b) {
      assert ToDict(a)["timestamp"] == ToDict(b)["timestamp"];
    }
  }
}
