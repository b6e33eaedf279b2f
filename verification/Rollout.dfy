/** A Codex rollout file as its readers see it: one decoded record a line. */
module Rollout {
  import opened Prelude
  import opened Calendar
  import opened IsoStamp

  /** One JSON member, as far as `as_str` tells members apart. */
  datatype Field = Missing | NotText | Text(text: string) {
    function AsText(): Option<string> { if Text? then Some(text) else None }
  }

  /** The `error` member: null and missing are one; anything else may carry a
      message and has a rendering of its own. */
  datatype ErrorField = NoError | Failed(message: Field, rendered: string)

  datatype Block = Block(kind: Field, text: Field)

  datatype Payload = Payload(
    kind: Field,
    callId: Field,
    name: Field,
    /** `sandbox_permissions` inside the decoded `arguments` string. */
    sandboxPermissions: Field,
    turnId: Field,
    error: ErrorField,
    message: Field,
    lastAgentMessage: Field,
    role: Field,
    content: seq<Block>
  )

  datatype Record = Record(kind: Field, timestamp: Field, payload: Option<Payload>)

  const MAX_LINE_BYTES: nat := 4 * 1024 * 1024

  /** A line after trimming. `record` is `None` when it is not JSON. */
  datatype Line = Blank | Line(bytes: nat, record: Option<Record>)

  /** The lines that are read: a read that began mid-file skips its first. */
  function Window(lines: seq<Line>, truncatedHead: bool): seq<Line> {
    if truncatedHead && lines != [] then lines[1..] else lines
  }

  lemma WindowGrows(lines: seq<Line>, truncatedHead: bool, index: nat)
    requires index < |lines|
    ensures Window(lines[..index + 1], truncatedHead)
         == Window(lines[..index], truncatedHead) + (if index == 0 && truncatedHead then [] else [lines[index]])
  {
  }

  /** A payload of this record type and kind. */
  predicate Is(r: Record, recordKind: string, kind: string) {
    r.kind == Text(recordKind) && r.payload.Some? && r.payload.value.kind == Text(kind)
  }

  /** `age_from_timestamp`: seconds since the stamp, unless it cannot be read or lies ahead. */
  function AgeFromTimestamp(timestamp: string, now: i64): Option<nat> { AgeOfSeconds(SecondsOrZero(timestamp), now) }

  function AgeOfSeconds(secs: i64, now: i64): Option<nat> {
    if secs <= 0 then None
    else
      var age :- Checked(now as int - secs as int);
      if age >= 0 then Some(age as nat) else None
  }

  /** The age is the time from the stamp to now; a stamp that cannot be read, is
      not after 1970 or lies ahead has none. */
  lemma AgeIsSinceTheStamp(timestamp: string, secs: i64, now: i64)
    requires SecondsOrZero(timestamp) == secs
    ensures AgeFromTimestamp(timestamp, now) == if 0 < secs <= now then Some((now - secs) as nat) else None
  {
    SecondsSince(secs, now);
  }

  lemma SecondsSince(secs: i64, now: i64)
    ensures AgeOfSeconds(secs, now) == if 0 < secs <= now then Some((now - secs) as nat) else None
  {
  }

  /** The age of a record stamped with a calendar date is the time since that date. */
  lemma AgeIsSinceTheDate(f: Fields, ending: string, unix: i64, now: i64)
    requires f.Valid() && f.year >= 0 && Ignorable(ending) && f.Instant() == unix as int
    ensures AgeFromTimestamp(StampText(f, ending), now) == if 0 < unix <= now then Some((now - unix) as nat) else None
  {
    SecondsOfADate(f, ending, unix);
    AgeIsSinceTheStamp(StampText(f, ending), unix, now);
  }

  function AgeOf(r: Record, now: i64): Option<nat> {
    var stamp :- r.timestamp.AsText();
    AgeFromTimestamp(stamp, now)
  }
}
