/** What the reader of a rollout finds, said of the records themselves. */
module CodexMeaning {
  import opened Prelude
  import opened AgentStates
  import opened CodexProbe
  import opened Rollout

  import IsoStamp

  // ---- records ----

  /** The record of a line that is JSON of no more than four mebibytes. */
  function RecordIn(line: Line): Option<Record> {
    if line.Line? && line.bytes <= 4_194_304 then line.record else None
  }

  function PayloadIn(line: Line): Option<Payload> {
    var r :- RecordIn(line);
    r.payload
  }

  predicate KindIn(line: Line, kind: string) { PayloadIn(line).Some? && PayloadIn(line).value.kind == Text(kind) }

  predicate EventIn(line: Line, kind: string) { KindIn(line, kind) && RecordIn(line).value.kind == Text("event_msg") }

  /** Blank, or a record that is no call without an id. */
  predicate Accounted(line: Line) {
    line.Blank? || (RecordIn(line).Some? && (KindIn(line, "function_call") ==> PayloadIn(line).value.callId.Text?))
  }

  /** The second a stamp names; 0 when it cannot be read. */
  function StampSeconds(timestamp: Field): i64 {
    if timestamp.Text? then IsoStamp.SecondsOrZero(timestamp.text) else 0
  }

  /** The seconds from then to now; a stamp that could not be read or lies ahead has no age. */
  function AgeSince(secs: i64, now: i64): Option<nat> { if 0 < secs <= now then Some((now - secs) as nat) else None }

  lemma AgeOfIsSince(r: Record, now: i64)
    ensures AgeOf(r, now) == AgeSince(StampSeconds(r.timestamp), now)
  {
    if r.timestamp.Text? {
      AgeOfText(r.timestamp.text, IsoStamp.SecondsOrZero(r.timestamp.text), now);
    }
  }

  lemma AgeOfText(text: string, secs: i64, now: i64)
    requires IsoStamp.SecondsOrZero(text) == secs
    ensures AgeFromTimestamp(text, now) == AgeSince(secs, now)
  {
    AgeIsSinceTheStamp(text, secs, now);
  }

  lemma AgeSinceBetween(secs: i64, now: i64, from: nat, until: nat)
    ensures AgeSince(secs, now).Some? && from <= AgeSince(secs, now).value < until
       <==> secs > 0 && from <= now as int - secs as int < until
  {
  }

  lemma SameReading(line: Line, kind: string)
    ensures RecordOf(line) == RecordIn(line) && PayloadOf(line) == PayloadIn(line)
    ensures HasKind(line, kind) == KindIn(line, kind) && IsEvent(line, kind) == EventIn(line, kind)
    ensures Unaccounted(line) == !Accounted(line)
  {
  }

  // ---- calls ----

  /** The record of a call: only an escalated `exec_command` spawns something
      that can be seen, of all else nothing is known. */
  predicate Starts(line: Line, id: string, call: OpenCall, now: i64) {
    && KindIn(line, "function_call")
    && var p := PayloadIn(line).value;
       && p.callId == Text(id)
       && call.name == (if p.name.Text? then p.name.text else "")
       && call.execution == (if p.name == Text("exec_command") && p.sandboxPermissions == Text("require_escalated")
                             then Spawns else Opaque)
       && call.age == AgeSince(StampSeconds(RecordIn(line).value.timestamp), now)
  }

  /** The call is answered, named again, or the turn is aborted. */
  predicate Settles(line: Line, id: string) {
    || EventIn(line, "turn_aborted")
    || ((KindIn(line, "function_call") || KindIn(line, "function_call_output")) && PayloadIn(line).value.callId == Text(id))
  }

  predicate OpenAt(lines: seq<Line>, i: nat, id: string, call: OpenCall, now: i64) {
    i < |lines| && Starts(lines[i], id, call, now) && forall j | i < j < |lines| :: !Settles(lines[j], id)
  }

  lemma CallStarts(line: Line, id: string, call: OpenCall, now: i64)
    ensures CallOf(line, now) == Some((id, call)) <==> Starts(line, id, call, now)
  {
    SameReading(line, "function_call");
    if RecordIn(line).Some? {
      AgeOfIsSince(RecordIn(line).value, now);
    }
  }

  lemma ClosesSettles(line: Line, id: string)
    ensures Closes(line, id) == Settles(line, id)
  {
    SameReading(line, "turn_aborted");
    SameReading(line, "function_call");
    SameReading(line, "function_call_output");
  }

  lemma StandsAtIsOpenAt(lines: seq<Line>, i: nat, id: string, call: OpenCall, now: i64)
    ensures StandsAt(lines, i, id, call, now) <==> OpenAt(lines, i, id, call, now)
  {
    if i < |lines| {
      var later := lines[i + 1..];
      CallStarts(lines[i], id, call, now);
      forall j: nat | i < j < |lines| ensures later[j - i - 1] == lines[j] && Closes(lines[j], id) == Settles(lines[j], id) {
        ClosesSettles(lines[j], id);
      }
      assert forall k | 0 <= k < |later| :: later[k] == lines[i + 1 + k];
      assert Stands(later, id) <==> forall j | i < j < |lines| :: !Settles(lines[j], id) by {
        if Stands(later, id) {
          forall j | i < j < |lines| ensures !Settles(lines[j], id) {
            assert !Closes(later[j - i - 1], id);
          }
        }
      }
    }
  }

  /** A call is open exactly when some record starts it and no later one settles it. */
  lemma OpenCallsAre(lines: seq<Line>, now: i64, id: string, call: OpenCall)
    ensures (id, call) in StandingCalls(lines, now) <==> exists i: nat :: OpenAt(lines, i, id, call, now)
  {
    StandingCallsAre(lines, now, id, call);
    forall i: nat ensures StandsAt(lines, i, id, call, now) <==> OpenAt(lines, i, id, call, now) {
      StandsAtIsOpenAt(lines, i, id, call, now);
    }
  }

  /** The lines `at`, none before `from`, start the calls `calls`, in this order. */
  ghost predicate StartedInOrder(lines: seq<Line>, from: nat, at: seq<nat>, calls: seq<(string, OpenCall)>, now: i64)
    decreases |at|
  {
    if at == [] then calls == []
    else
      && calls != [] && from <= at[0] && StandsAt(lines, at[0], calls[0].0, calls[0].1, now)
      && StartedInOrder(lines, at[0] + 1, at[1..], calls[1..], now)
  }

  lemma {:induction false} LaterStart(lines: seq<Line>, from: nat, to: nat, at: seq<nat>, calls: seq<(string, OpenCall)>,
                                      now: i64)
    requires from <= to && StartedInOrder(lines, to, at, calls, now)
    ensures StartedInOrder(lines, from, at, calls, now)
  {
  }

  lemma {:induction false} StandingInOrder(lines: seq<Line>, from: nat, now: i64) returns (at: seq<nat>)
    requires from <= |lines|
    ensures StartedInOrder(lines, from, at, StandingCalls(lines[from..], now), now)
    decreases |lines| - from
  {
    at := [];
    if from < |lines| {
      var rest := lines[from + 1..];
      var later := StandingInOrder(lines, from + 1, now);
      assert lines[from..] == [lines[from]] + rest;
      StandingOfCons(lines[from], rest, now);
      var head, calls := Head(CallOf(lines[from], now), rest), StandingCalls(rest, now);
      if head == [] {
        assert head + calls == calls;
        at := later;
        LaterStart(lines, from, from + 1, at, calls, now);
      } else {
        at := [from] + later;
        assert at[1..] == later && (head + calls)[1..] == calls;
        assert StandsAt(lines, from, head[0].0, head[0].1, now);
      }
    }
  }

  lemma {:induction false} StartedAt(lines: seq<Line>, from: nat, at: seq<nat>, calls: seq<(string, OpenCall)>,
                                     now: i64, k: nat)
    requires StartedInOrder(lines, from, at, calls, now) && k < |at|
    ensures |at| == |calls| && from <= at[k] && StandsAt(lines, at[k], calls[k].0, calls[k].1, now)
    ensures forall b | k < b < |at| :: at[k] < at[b]
    decreases |at|
  {
    if |at| > 1 {
      if k > 0 {
        StartedAt(lines, at[0] + 1, at[1..], calls[1..], now, k - 1);
        assert forall b | k < b < |at| :: at[b] == at[1..][b - 1];
      } else {
        forall b | 0 < b < |at| ensures |at| == |calls| && at[0] < at[b] {
          StartedAt(lines, at[0] + 1, at[1..], calls[1..], now, b - 1);
          assert at[b] == at[1..][b - 1];
        }
        StartedAt(lines, at[0] + 1, at[1..], calls[1..], now, 0);
      }
    }
  }

  /** The open calls come in the order of the records that start them. */
  lemma OpenCallsInOrder(lines: seq<Line>, now: i64) returns (at: seq<nat>)
    ensures var open := StandingCalls(lines, now);
            && |at| == |open| && (forall a, b | 0 <= a < b < |at| :: at[a] < at[b])
            && forall k | 0 <= k < |at| :: OpenAt(lines, at[k], open[k].0, open[k].1, now)
  {
    at := StandingInOrder(lines, 0, now);
    assert lines[0..] == lines;
    var open := StandingCalls(lines, now);
    forall k | 0 <= k < |at|
      ensures |at| == |open| && OpenAt(lines, at[k], open[k].0, open[k].1, now)
      ensures forall b | k < b < |at| :: at[k] < at[b]
    {
      StartedAt(lines, 0, at, open, now, k);
      StandsAtIsOpenAt(lines, at[k], open[k].0, open[k].1, now);
    }
  }

  // ---- turns and errors ----

  predicate TurnEventIn(line: Line) {
    EventIn(line, "task_started") || EventIn(line, "task_complete") || EventIn(line, "turn_aborted")
  }

  /** The newest turn event starts a turn, and `age` is its age. */
  predicate TurnOpenAt(lines: seq<Line>, i: nat, age: Option<nat>, now: i64) {
    && i < |lines| && EventIn(lines[i], "task_started")
    && age == AgeSince(StampSeconds(RecordIn(lines[i]).value.timestamp), now)
    && forall j | i < j < |lines| :: !TurnEventIn(lines[j])
  }

  /** The record of an ended turn: named by its id or else by its stamp, failed
      when it completed with an error, interrupted when it was aborted. */
  predicate EndsTurn(line: Line, end: TurnEnd) {
    && (EventIn(line, "task_complete") || EventIn(line, "turn_aborted"))
    && var p := PayloadIn(line).value;
       && (if p.turnId.Text? then p.turnId else RecordIn(line).value.timestamp) == Text(end.marker)
       && end.interrupted == EventIn(line, "turn_aborted")
       && end.failed == (EventIn(line, "task_complete") && p.error != NoError)
       && !end.promptReturned
  }

  predicate NamesATurnEnd(line: Line) {
    && (EventIn(line, "task_complete") || EventIn(line, "turn_aborted"))
    && (PayloadIn(line).value.turnId.Text? || RecordIn(line).value.timestamp.Text?)
  }

  predicate NewestEndAt(lines: seq<Line>, i: nat, end: TurnEnd) {
    i < |lines| && EndsTurn(lines[i], end) && forall j | i < j < |lines| :: !NamesATurnEnd(lines[j])
  }

  /** An error, and nothing with a type after it but calls without an id. */
  predicate ErrorAt(lines: seq<Line>, i: nat) {
    && i < |lines| && KindIn(lines[i], "error")
    && forall j | i < j < |lines| && PayloadIn(lines[j]).Some? ::
         PayloadIn(lines[j]).value.kind == Missing || !Accounted(lines[j])
  }

  lemma SameTurns(line: Line, end: TurnEnd)
    ensures IsTurnEvent(line) == TurnEventIn(line)
    ensures TurnEndOf(line) == Some(end) <==> EndsTurn(line, end)
    ensures TurnEndOf(line).Some? <==> NamesATurnEnd(line)
  {
    SameReading(line, "task_started");
    SameReading(line, "task_complete");
    SameReading(line, "turn_aborted");
  }

  predicate LastTurnEventAt(lines: seq<Line>, i: nat) {
    i < |lines| && TurnEventIn(lines[i]) && forall j | i < j < |lines| :: !TurnEventIn(lines[j])
  }

  lemma {:induction false} TurnEventIs(lines: seq<Line>) returns (i: nat)
    ensures TurnEvent(lines).Some? ==> LastTurnEventAt(lines, i) && lines[i] == TurnEvent(lines).value
    ensures TurnEvent(lines) == None ==> forall k | 0 <= k < |lines| :: !TurnEventIn(lines[k])
  {
    i := 0;
    if lines != [] {
      var n: nat := |lines| - 1;
      SameTurns(lines[n], TurnEnd("", false, false, false));
      if IsTurnEvent(lines[n]) {
        i := n;
      } else {
        i := TurnEventIs(lines[..n]);
      }
    }
  }

  lemma OpenTurnIs(lines: seq<Line>, now: i64, age: nat)
    ensures OpenTurn(lines, now) == Some(age) <==> exists i: nat :: TurnOpenAt(lines, i, Some(age), now)
  {
    var i := TurnEventIs(lines);
    forall k: nat | TurnOpenAt(lines, k, Some(age), now) ensures TurnEvent(lines).Some? && k == i {
      assert TurnEventIn(lines[k]);
    }
    if TurnEvent(lines).Some? {
      OpenTurnOf(lines, i, now, age);
    }
  }

  lemma OpenTurnOf(lines: seq<Line>, i: nat, now: i64, age: nat)
    requires LastTurnEventAt(lines, i) && TurnEvent(lines) == Some(lines[i])
    ensures OpenTurn(lines, now) == Some(age) <==> TurnOpenAt(lines, i, Some(age), now)
  {
    SameReading(lines[i], "task_started");
    AgeOfIsSince(RecordIn(lines[i]).value, now);
  }

  lemma {:induction false} NewestTurnEndIs(lines: seq<Line>, end: TurnEnd)
    ensures NewestTurnEnd(lines) == Some(end) <==> exists i: nat :: NewestEndAt(lines, i, end)
  {
    if lines != [] {
      var n: nat := |lines| - 1;
      var front, last := lines[..n], lines[n];
      NewestTurnEndIs(front, end);
      SameTurns(last, end);
      if NamesATurnEnd(last) {
        assert NewestEndAt(lines, n, end) <==> EndsTurn(last, end);
        forall i: nat | NewestEndAt(lines, i, end) ensures i == n {
        }
      } else {
        forall i: nat | i < n ensures NewestEndAt(lines, i, end) <==> NewestEndAt(front, i, end) {
          assert forall j | i <= j < n :: front[j] == lines[j];
        }
      }
    }
  }

  lemma EndsInErrorIs(lines: seq<Line>)
    ensures EndsInError(lines) <==> exists i: nat :: ErrorAt(lines, i)
  {
    forall k | 0 <= k < |lines|
      ensures HasKind(lines[k], "error") == KindIn(lines[k], "error")
      ensures IsTyped(lines[k])
         <==> PayloadIn(lines[k]).Some? && PayloadIn(lines[k]).value.kind != Missing && Accounted(lines[k])
    {
      SameReading(lines[k], "error");
      SameReading(lines[k], "function_call");
    }
    if EndsInError(lines) {
      var i :| 0 <= i < |lines| && HasKind(lines[i], "error") && forall j | i < j < |lines| :: !IsTyped(lines[j]);
      assert ErrorAt(lines, i);
    }
  }

  lemma AllAccountedIs(lines: seq<Line>)
    ensures AllAccounted(lines) <==> forall k | 0 <= k < |lines| :: Accounted(lines[k])
  {
    forall k | 0 <= k < |lines| ensures Unaccounted(lines[k]) == !Accounted(lines[k]) {
      SameReading(lines[k], "");
    }
  }

  /** The lines that are read: a read that began mid-file skips the fragment it began with. */
  function LinesRead(lines: seq<Line>, truncatedHead: bool): seq<Line> {
    if truncatedHead && |lines| > 0 then lines[1..] else lines
  }

  /** Every part of the probe, said of the records. */
  lemma ProbeMeans(lines: seq<Line>, truncatedHead: bool, now: i64)
    ensures var w, probe := LinesRead(lines, truncatedHead), Probe(lines, truncatedHead, now);
            && (probe.incomplete <==> truncatedHead || exists k :: 0 <= k < |w| && !Accounted(w[k]))
            && (probe.errored <==> exists i: nat :: ErrorAt(w, i))
            && (forall call :: call in probe.openCalls <==> exists i: nat, id :: OpenAt(w, i, id, call, now))
            && (forall age: nat :: probe.openTurn == Some(age) <==> exists i: nat :: TurnOpenAt(w, i, Some(age), now))
            && (forall end :: probe.lastTurnEnd == Some(end) <==> exists i: nat :: NewestEndAt(w, i, end))
  {
    var w := LinesRead(lines, truncatedHead);
    AllAccountedIs(w);
    EndsInErrorIs(w);
    forall call ensures call in Calls(StandingCalls(w, now)) <==> exists i: nat, id :: OpenAt(w, i, id, call, now) {
      CallIsOpen(w, now, call);
    }
    forall age: nat ensures OpenTurn(w, now) == Some(age) <==> exists i: nat :: TurnOpenAt(w, i, Some(age), now) {
      OpenTurnIs(w, now, age);
    }
    forall end ensures NewestTurnEnd(w) == Some(end) <==> exists i: nat :: NewestEndAt(w, i, end) {
      NewestTurnEndIs(w, end);
    }
  }

  lemma CallIsOpen(w: seq<Line>, now: i64, call: OpenCall)
    ensures call in Calls(StandingCalls(w, now)) <==> exists i: nat, id :: OpenAt(w, i, id, call, now)
  {
    var standing := StandingCalls(w, now);
    if call in Calls(standing) {
      var k :| 0 <= k < |standing| && standing[k].1 == call;
      assert standing[k] in standing;
      OpenCallsAre(w, now, standing[k].0, call);
    }
    if i: nat, id :| OpenAt(w, i, id, call, now) {
      OpenCallsAre(w, now, id, call);
      var k :| 0 <= k < |standing| && standing[k] == (id, call);
      assert Calls(standing)[k] == call;
    }
  }

  // ---- from the file to the word shown ----

  /** A question that stands: an escalated command stamped at least five seconds
      and less than half an hour ago, that nothing later settles. */
  predicate QuestionAt(lines: seq<Line>, i: nat, now: i64) {
    && i < |lines| && KindIn(lines[i], "function_call")
    && var p, stamp := PayloadIn(lines[i]).value, RecordIn(lines[i]).value.timestamp;
       && p.name == Text("exec_command") && p.sandboxPermissions == Text("require_escalated") && p.callId.Text?
       && StampSeconds(stamp) > 0 && 5 <= now as int - StampSeconds(stamp) as int < 1_800
       && forall j | i < j < |lines| :: !Settles(lines[j], p.callId.text)
  }

  lemma QuestionIsOpenCall(lines: seq<Line>, i: nat, now: i64)
    ensures QuestionAt(lines, i, now) <==> exists id, call :: OpenAt(lines, i, id, call, now) && Evidence(call, Absent)
  {
    if i < |lines| && KindIn(lines[i], "function_call") {
      var p, secs := PayloadIn(lines[i]).value, StampSeconds(RecordIn(lines[i]).value.timestamp);
      AgeSinceBetween(secs, now, 5, 1_800);
      if QuestionAt(lines, i, now) {
        var call := OpenCall(p.name.text, AgeSince(secs, now), Spawns);
        assert OpenAt(lines, i, p.callId.text, call, now) && Evidence(call, Absent);
      }
    }
  }

  /** From the file and two process facts to the word shown: a Codex window says
      "waiting for you" exactly when the read began at the file's head, every line
      is accounted for, nothing but what has no type follows an error, the agent
      is there with no worker, and some question stands. */
  lemma WaitingEndToEnd(lines: seq<Line>, truncatedHead: bool, now: i64, worker: Worker, agent: AgentProcess)
    ensures Classify(Probe(lines, truncatedHead, now), worker, agent) == WaitingForInput
       <==> && !truncatedHead && (forall k | 0 <= k < |lines| :: Accounted(lines[k]))
            && !(exists i: nat :: ErrorAt(lines, i))
            && agent == Found && worker == Absent
            && exists i: nat :: QuestionAt(lines, i, now)
  {
    var probe := Probe(lines, truncatedHead, now);
    WaitingIsEvidence(probe, worker, agent);
    ProbeMeans(lines, truncatedHead, now);
    forall i: nat
      ensures QuestionAt(lines, i, now) <==> exists id, call :: OpenAt(lines, i, id, call, now) && Evidence(call, Absent)
    {
      QuestionIsOpenCall(lines, i, now);
    }
    if c :| !truncatedHead && c in probe.openCalls && Evidence(c, worker) {
      var i: nat, id :| OpenAt(lines, i, id, c, now);
      assert c.execution == Spawns && worker == Absent;
      assert QuestionAt(lines, i, now);
    }
    if i: nat :| !truncatedHead && worker == Absent && QuestionAt(lines, i, now) {
      var id, call :| OpenAt(lines, i, id, call, now) && Evidence(call, Absent);
      assert call in probe.openCalls;
    }
  }

  /** A question asked at a date of the calendar stands from five seconds to half an hour after. */
  lemma DatedQuestion(line: Line, f: IsoStamp.Calendar.Fields, ending: string, unix: i64, now: i64)
    requires f.Valid() && f.year >= 0 && IsoStamp.Ignorable(ending) && f.Instant() == unix as int > 0
    requires KindIn(line, "function_call") && RecordIn(line).value.timestamp == Text(IsoStamp.StampText(f, ending))
    requires var p := PayloadIn(line).value;
             p.name == Text("exec_command") && p.sandboxPermissions == Text("require_escalated") && p.callId.Text?
    ensures Classify(Probe([line], false, now), Absent, Found) == WaitingForInput <==> 5 <= now as int - unix as int < 1_800
  {
    IsoStamp.SecondsOfADate(f, ending, unix);
    assert StampSeconds(RecordIn(line).value.timestamp) == unix;
    WaitingEndToEnd([line], false, now, Absent, Found);
    assert Accounted(line) && !KindIn(line, "error");
    assert QuestionAt([line], 0, now) <==> 5 <= now as int - unix as int < 1_800;
  }
}
