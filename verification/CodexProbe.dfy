/** One pass over a rollout's tail: what is open, whether a turn runs, and how
    the last turn ended. */
module CodexProbe {
  import opened Prelude
  import opened AgentStates
  import opened Rollout

  // ---- what a single line says ----

  /** The record of a line short enough to parse and parseable. */
  function RecordOf(line: Line): Option<Record> {
    if line.Blank? || line.bytes > MAX_LINE_BYTES then None else line.record
  }

  function PayloadOf(line: Line): Option<Payload> {
    var r :- RecordOf(line);
    r.payload
  }

  predicate HasKind(line: Line, kind: string) {
    PayloadOf(line).Some? && PayloadOf(line).value.kind == Text(kind)
  }

  predicate IsEvent(line: Line, kind: string) {
    RecordOf(line).Some? && Is(RecordOf(line).value, "event_msg", kind)
  }

  /** A call that no answer could ever be matched to. */
  predicate AnonymousCall(line: Line) {
    HasKind(line, "function_call") && !PayloadOf(line).value.callId.Text?
  }

  /** A line the reader cannot account for. */
  predicate Unaccounted(line: Line) {
    line.Line? && (RecordOf(line) == None || AnonymousCall(line))
  }

  /** `execution_of_call`. */
  function ExecutionOfCall(name: string, sandboxPermissions: Field): ToolExecution {
    if name != "exec_command" then Opaque
    else if sandboxPermissions == Text("require_escalated") then Spawns
    else Opaque
  }

  /** The call a line starts, with its id. */
  function CallOf(line: Line, now: i64): Option<(string, OpenCall)> {
    if HasKind(line, "function_call") && !AnonymousCall(line) then
      var p := PayloadOf(line).value;
      var name := if p.name.Text? then p.name.text else "";
      Some((p.callId.text, OpenCall(name, AgeOf(RecordOf(line).value, now), ExecutionOfCall(name, p.sandboxPermissions))))
    else None
  }

  /** A later line after which the call `id` is not open any more, or not as it was. */
  predicate Closes(line: Line, id: string) {
    || IsEvent(line, "turn_aborted")
    || ((HasKind(line, "function_call") || HasKind(line, "function_call_output"))
        && PayloadOf(line).value.callId == Text(id))
  }

  predicate IsTurnEnd(line: Line) { IsEvent(line, "task_complete") || IsEvent(line, "turn_aborted") }

  /** The end of a turn a line records, when something names that turn. */
  function TurnEndOf(line: Line): Option<TurnEnd> {
    if !IsTurnEnd(line) then None
    else
      var r := RecordOf(line).value;
      var p := r.payload.value;
      var marker :- if p.turnId.Text? then p.turnId.AsText() else r.timestamp.AsText();
      Some(TurnEnd(marker, IsEvent(line, "task_complete") && p.error.Failed?, IsEvent(line, "turn_aborted"), false))
  }

  /** A line whose payload has a type at all. */
  predicate IsTyped(line: Line) {
    PayloadOf(line).Some? && !PayloadOf(line).value.kind.Missing? && !AnonymousCall(line)
  }

  // ---- what a window of lines says ----

  /** The calls nothing later in the window closes, by their latest start. */
  function StandingCalls(lines: seq<Line>, now: i64): seq<(string, OpenCall)> {
    if lines == [] then []
    else
      var call := CallOf(lines[0], now);
      (if call.Some? && Stands(lines[1..], call.value.0) then [call.value] else []) + StandingCalls(lines[1..], now)
  }

  predicate Stands(later: seq<Line>, id: string) { forall j | 0 <= j < |later| :: !Closes(later[j], id) }

  function Calls(standing: seq<(string, OpenCall)>): (calls: seq<OpenCall>)
    ensures |calls| == |standing| && forall i | 0 <= i < |calls| :: calls[i] == standing[i].1
  {
    seq(|standing|, i requires 0 <= i < |standing| => standing[i].1)
  }

  /** The newest line with a type is an error. */
  predicate EndsInError(lines: seq<Line>) {
    exists i ::
      && 0 <= i < |lines| && HasKind(lines[i], "error")
      && forall j | i < j < |lines| :: !IsTyped(lines[j])
  }

  predicate IsTurnEvent(line: Line) { IsEvent(line, "task_started") || IsTurnEnd(line) }

  /** The newest turn event. */
  function TurnEvent(lines: seq<Line>): Option<Line> {
    if lines == [] then None
    else
      var last := lines[|lines| - 1];
      if IsTurnEvent(last) then Some(last) else TurnEvent(lines[..|lines| - 1])
  }

  /** How long the turn that has not ended has run. */
  function OpenTurn(lines: seq<Line>, now: i64): Option<nat> {
    var event :- TurnEvent(lines);
    if IsEvent(event, "task_started") then AgeOf(RecordOf(event).value, now) else None
  }

  function NewestTurnEnd(lines: seq<Line>): Option<TurnEnd> {
    if lines == [] then None
    else
      var end := TurnEndOf(lines[|lines| - 1]);
      if end.Some? then end else NewestTurnEnd(lines[..|lines| - 1])
  }

  predicate AllAccounted(lines: seq<Line>) { forall i | 0 <= i < |lines| :: !Unaccounted(lines[i]) }

  /** The probe a whole text gives. */
  ghost function Probe(lines: seq<Line>, truncatedHead: bool, now: i64): TranscriptProbe {
    var window := Window(lines, truncatedHead);
    TranscriptProbe(Calls(StandingCalls(window, now)), OpenTurn(window, now), EndsInError(window),
                    truncatedHead || !AllAccounted(window), NewestTurnEnd(window))
  }

  // ---- the one-pass reader ----

  function Without(open: seq<(string, OpenCall)>, id: string): seq<(string, OpenCall)> {
    if open == [] then [] else (if open[0].0 == id then [] else [open[0]]) + Without(open[1..], id)
  }

  /** The variables the reader's loop updates. */
  datatype Reading = Reading(
    open: seq<(string, OpenCall)>,
    incomplete: bool,
    errored: bool,
    turnOpen: bool,
    turnAt: Option<nat>,
    lastTurnEnd: Option<TurnEnd>
  )

  ghost predicate Reflects(r: Reading, seen: seq<Line>, truncatedHead: bool, now: i64) {
    && r.open == StandingCalls(seen, now)
    && r.incomplete == (truncatedHead || !AllAccounted(seen))
    && r.errored == EndsInError(seen)
    && (if r.turnOpen then r.turnAt else None) == OpenTurn(seen, now)
    && r.lastTurnEnd == NewestTurnEnd(seen)
  }

  /** `probe_from_text`. */
  method ProbeFromText(lines: seq<Line>, truncatedHead: bool, now: i64) returns (probe: TranscriptProbe)
    ensures probe == Probe(lines, truncatedHead, now)
  {
    var r := Reading([], truncatedHead, false, false, None, None);
    ghost var seen: seq<Line> := [];
    for index := 0 to |lines|
      invariant seen == Window(lines[..index], truncatedHead)
      invariant Reflects(r, seen, truncatedHead, now)
    {
      WindowGrows(lines, truncatedHead, index);
      if index == 0 && truncatedHead {
        continue;
      }
      r := TakeLine(r, lines[index], now, seen, truncatedHead);
      seen := seen + [lines[index]];
    }
    assert lines[..|lines|] == lines;
    probe := TranscriptProbe(Calls(r.open), if r.turnOpen then r.turnAt else None, r.errored, r.incomplete, r.lastTurnEnd);
  }

  /** The loop's body. */
  method TakeLine(before: Reading, line: Line, now: i64, ghost seen: seq<Line>, ghost truncatedHead: bool)
    returns (r: Reading)
    requires Reflects(before, seen, truncatedHead, now)
    ensures Reflects(r, seen + [line], truncatedHead, now)
  {
    OneMoreLine(seen, line, now);
    if PayloadOf(line) == None || AnonymousCall(line) {
      SaysNothing(line, before.open, now);
    }
    r := before;
    if line.Blank? {
      return;
    }
    if line.bytes > MAX_LINE_BYTES || line.record == None {
      r := r.(incomplete := true);
      return;
    }
    if line.record.value.payload == None {
      return;
    }
    var payload := line.record.value.payload.value;
    if payload.kind == Text("function_call") && !payload.callId.Text? {
      r := r.(incomplete := true);
      return;
    }
    var open := TakeCall(r.open, line, now);
    var turnOpen, turnAt, lastTurnEnd := TakeTurn(r.turnOpen, r.turnAt, r.lastTurnEnd, line, now);
    r := r.(open := open, turnOpen := turnOpen, turnAt := turnAt, lastTurnEnd := lastTurnEnd);
    if payload.kind == Text("error") {
      r := r.(errored := true);
    } else if !payload.kind.Missing? {
      r := r.(errored := false);
    }
  }

  /** A line without a payload, or with a call nothing could answer, leaves calls, turns and errors alone. */
  lemma SaysNothing(line: Line, open: seq<(string, OpenCall)>, now: i64)
    requires PayloadOf(line) == None || AnonymousCall(line)
    ensures OneMoreCall(open, line, now) == open && TurnEndOf(line) == None
    ensures !IsTurnEvent(line) && !IsTyped(line) && !HasKind(line, "error")
  {
  }

  /** A call opens, an answer closes, and an aborted turn closes everything. */
  method TakeCall(before: seq<(string, OpenCall)>, line: Line, now: i64) returns (open: seq<(string, OpenCall)>)
    requires PayloadOf(line).Some? && !AnonymousCall(line)
    ensures open == OneMoreCall(before, line, now)
  {
    open := before;
    var record := line.record.value;
    var payload := record.payload.value;
    if payload.kind == Text("function_call") {
      var id := payload.callId.text;
      var name := if payload.name.Text? then payload.name.text else "";
      open := Without(open, id);
      open := open + [(id, OpenCall(name, AgeOf(record, now), ExecutionOfCall(name, payload.sandboxPermissions)))];
    } else if payload.kind == Text("function_call_output") && payload.callId.Text? {
      open := Without(open, payload.callId.text);
    }
    if record.kind == Text("event_msg") && payload.kind == Text("turn_aborted") {
      open := [];
    }
  }

  /** The turn's own events. */
  method TakeTurn(wasOpen: bool, wasAt: Option<nat>, wasEnd: Option<TurnEnd>, line: Line, now: i64)
    returns (turnOpen: bool, turnAt: Option<nat>, lastTurnEnd: Option<TurnEnd>)
    requires PayloadOf(line).Some?
    ensures (if turnOpen then turnAt else None) == OneMoreTurn(if wasOpen then wasAt else None, line, now)
    ensures lastTurnEnd == if TurnEndOf(line).Some? then TurnEndOf(line) else wasEnd
  {
    turnOpen, turnAt, lastTurnEnd := wasOpen, wasAt, wasEnd;
    var record := line.record.value;
    var payload := record.payload.value;
    if record.kind == Text("event_msg") {
      if payload.kind == Text("task_started") {
        turnOpen, turnAt := true, AgeOf(record, now);
      } else if payload.kind == Text("task_complete") || payload.kind == Text("turn_aborted") {
        turnOpen, turnAt := false, None;
        var marker := if payload.turnId.Text? then payload.turnId else record.timestamp;
        if marker.Text? {
          lastTurnEnd := Some(TurnEnd(marker.text, payload.kind == Text("task_complete") && payload.error.Failed?,
                                      payload.kind == Text("turn_aborted"), false));
        }
      }
    }
  }

  /** What one more line does to every part of the answer. */
  lemma OneMoreLine(w: seq<Line>, line: Line, now: i64)
    ensures StandingCalls(w + [line], now) == OneMoreCall(StandingCalls(w, now), line, now)
    ensures AllAccounted(w + [line]) <==> AllAccounted(w) && !Unaccounted(line)
    ensures EndsInError(w + [line]) <==> HasKind(line, "error") || (!IsTyped(line) && EndsInError(w))
    ensures OpenTurn(w + [line], now) == OneMoreTurn(OpenTurn(w, now), line, now)
    ensures NewestTurnEnd(w + [line]) == if TurnEndOf(line).Some? then TurnEndOf(line) else NewestTurnEnd(w)
  {
    StandingOneMore(w, line, now);
    AccountedOneMore(w, line);
    ErrorOneMore(w, line);
    OpenTurnOneMore(w, line, now);
    TurnOneMore(w, line);
  }

  lemma AccountedOneMore(w: seq<Line>, line: Line)
    ensures AllAccounted(w + [line]) <==> AllAccounted(w) && !Unaccounted(line)
  {
    assert forall i | 0 <= i < |w| :: (w + [line])[i] == w[i];
    assert (w + [line])[|w|] == line;
  }

  lemma OpenTurnOneMore(w: seq<Line>, line: Line, now: i64)
    ensures OpenTurn(w + [line], now) == OneMoreTurn(OpenTurn(w, now), line, now)
  {
    TurnOneMore(w, line);
  }

  lemma ErrorOneMore(w: seq<Line>, line: Line)
    ensures EndsInError(w + [line]) <==> HasKind(line, "error") || (!IsTyped(line) && EndsInError(w))
  {
    var more := w + [line];
    assert more[|w|] == line && forall i | 0 <= i < |w| :: more[i] == w[i];
    if !HasKind(line, "error") && !IsTyped(line) && EndsInError(w) {
      var i :| 0 <= i < |w| && HasKind(w[i], "error") && forall j | i < j < |w| :: !IsTyped(w[j]);
      assert HasKind(more[i], "error");
    }
    if EndsInError(more) && !HasKind(line, "error") {
      var i :| 0 <= i < |more| && HasKind(more[i], "error") && forall j | i < j < |more| :: !IsTyped(more[j]);
      assert i < |w| && HasKind(w[i], "error") && !IsTyped(more[|w|]);
    }
  }

  lemma TurnOneMore(w: seq<Line>, line: Line)
    ensures TurnEvent(w + [line]) == if IsTurnEvent(line) then Some(line) else TurnEvent(w)
    ensures NewestTurnEnd(w + [line]) == if TurnEndOf(line).Some? then TurnEndOf(line) else NewestTurnEnd(w)
  {
    assert (w + [line])[..|w|] == w;
  }

  /** How long the open turn has run, after a line. */
  function OneMoreTurn(open: Option<nat>, line: Line, now: i64): Option<nat> {
    if IsEvent(line, "task_started") then AgeOf(RecordOf(line).value, now)
    else if IsTurnEnd(line) then None
    else open
  }

  /** The open calls after a line: those it closes go, the one it starts comes last. */
  function OneMoreCall(open: seq<(string, OpenCall)>, line: Line, now: i64): seq<(string, OpenCall)> {
    if IsEvent(line, "turn_aborted") then []
    else if CallOf(line, now).Some? then Without(open, CallOf(line, now).value.0) + [CallOf(line, now).value]
    else if HasKind(line, "function_call_output") && PayloadOf(line).value.callId.Text? then
      Without(open, PayloadOf(line).value.callId.text)
    else open
  }

  lemma {:induction false} WithoutConcat(s: seq<(string, OpenCall)>, t: seq<(string, OpenCall)>, id: string)
    ensures Without(s + t, id) == Without(s, id) + Without(t, id)
  {
    if s == [] {
      assert s + t == t;
    } else {
      assert (s + t)[1..] == s[1..] + t;
      WithoutConcat(s[1..], t, id);
    }
  }

  lemma StandsOneMore(later: seq<Line>, line: Line, id: string)
    ensures Stands(later + [line], id) <==> Stands(later, id) && !Closes(line, id)
  {
    assert forall j | 0 <= j < |later| :: (later + [line])[j] == later[j];
    assert (later + [line])[|later|] == line;
  }

  /** A standing call after one more line. */
  function Head(call: Option<(string, OpenCall)>, later: seq<Line>): seq<(string, OpenCall)> {
    if call.Some? && Stands(later, call.value.0) then [call.value] else []
  }

  lemma HeadOneMore(call: Option<(string, OpenCall)>, later: seq<Line>, line: Line,
                    rest: seq<(string, OpenCall)>, now: i64)
    ensures Head(call, later + [line]) + OneMoreCall(rest, line, now) == OneMoreCall(Head(call, later) + rest, line, now)
  {
    var head := Head(call, later);
    if call.Some? {
      StandsOneMore(later, line, call.value.0);
    }
    if CallOf(line, now).Some? {
      WithoutConcat(head, rest, CallOf(line, now).value.0);
    } else if HasKind(line, "function_call_output") && PayloadOf(line).value.callId.Text? {
      WithoutConcat(head, rest, PayloadOf(line).value.callId.text);
    }
  }

  lemma {:induction false} StandingOneMore(w: seq<Line>, line: Line, now: i64)
    ensures StandingCalls(w + [line], now) == OneMoreCall(StandingCalls(w, now), line, now)
  {
    if w == [] {
      assert [line][1..] == [] && w + [line] == [line];
      assert StandingCalls([], now) == [];
    } else {
      StandingOneMore(w[1..], line, now);
      assert (w + [line])[1..] == w[1..] + [line];
      HeadOneMore(CallOf(w[0], now), w[1..], line, StandingCalls(w[1..], now), now);
    }
  }

  // ---- what the probe proves ----

  /** Line `i` starts the call `call` under `id`, and nothing later closes it. */
  ghost predicate StandsAt(lines: seq<Line>, i: nat, id: string, call: OpenCall, now: i64) {
    i < |lines| && CallOf(lines[i], now) == Some((id, call)) && Stands(lines[i + 1..], id)
  }

  lemma {:induction false} StandingCallsAre(lines: seq<Line>, now: i64, id: string, call: OpenCall)
    ensures (id, call) in StandingCalls(lines, now) <==> exists i: nat :: StandsAt(lines, i, id, call, now)
  {
    if lines != [] {
      var rest := lines[1..];
      StandingCallsAre(rest, now, id, call);
      if i: nat :| StandsAt(rest, i, id, call, now) {
        assert lines[i + 1 + 1..] == rest[i + 1..];
        assert StandsAt(lines, i + 1, id, call, now);
      }
      if i: nat :| StandsAt(lines, i, id, call, now) {
        if i == 0 {
          assert StandingCalls(lines, now)[0] == (id, call);
        } else {
          assert lines[i + 1..] == rest[i..];
          assert StandsAt(rest, i - 1, id, call, now);
        }
      }
      if StandsAt(lines, 0, id, call, now) {
        assert (id, call) in StandingCalls(lines, now);
      }
      if (id, call) in StandingCalls(lines, now) && (id, call) !in StandingCalls(rest, now) {
        assert StandsAt(lines, 0, id, call, now);
      }
    }
  }

  // ---- what a tail can be trusted with ----

  /** The calls of `earlier` that nothing in `later` closes either. */
  function Survivors(earlier: seq<Line>, later: seq<Line>, now: i64): seq<(string, OpenCall)> {
    if earlier == [] then []
    else Head(CallOf(earlier[0], now), earlier[1..] + later) + Survivors(earlier[1..], later, now)
  }

  lemma {:induction false} StandingSplits(earlier: seq<Line>, later: seq<Line>, now: i64)
    ensures StandingCalls(earlier + later, now) == Survivors(earlier, later, now) + StandingCalls(later, now)
  {
    if earlier == [] {
      assert earlier + later == later;
    } else {
      var line, rest := earlier[0], earlier[1..];
      var head := Head(CallOf(line, now), rest + later);
      assert earlier + later == [line] + (rest + later);
      assert StandingCalls(earlier + later, now) == head + StandingCalls(rest + later, now) by {
        StandingOfCons(line, rest + later, now);
      }
      StandingSplits(rest, later, now);
      Regroup(head, Survivors(rest, later, now), StandingCalls(later, now));
    }
  }

  lemma StandingOfCons(line: Line, rest: seq<Line>, now: i64)
    ensures StandingCalls([line] + rest, now) == Head(CallOf(line, now), rest) + StandingCalls(rest, now)
  {
    assert ([line] + rest)[1..] == rest;
  }

  lemma {:induction false} SurvivorsAreEarlier(earlier: seq<Line>, later: seq<Line>, now: i64)
    ensures forall c | c in Survivors(earlier, later, now) :: c in StandingCalls(earlier, now) && Stands(later, c.0)
  {
    if earlier != [] {
      var call, rest := CallOf(earlier[0], now), earlier[1..];
      SurvivorsAreEarlier(rest, later, now);
      StandingOfCons(earlier[0], rest, now);
      assert earlier == [earlier[0]] + rest;
      if call.Some? {
        StandsApart(rest, later, call.value.0);
      }
    }
  }

  lemma StandsApart(rest: seq<Line>, later: seq<Line>, id: string)
    ensures Stands(rest + later, id) ==> Stands(rest, id) && Stands(later, id)
  {
    assert forall j | 0 <= j < |rest| :: (rest + later)[j] == rest[j];
    assert forall j | 0 <= j < |later| :: (rest + later)[|rest| + j] == later[j];
  }

  predicate DistinctIds(calls: seq<(string, OpenCall)>) {
    forall a, b | 0 <= a < b < |calls| :: calls[a].0 != calls[b].0
  }

  /** One entry for each call id. */
  lemma {:induction false} OneEntryEach(lines: seq<Line>, now: i64)
    ensures DistinctIds(StandingCalls(lines, now))
  {
    if lines != [] {
      OneEntryEach(lines[1..], now);
      var head, rest := Head(CallOf(lines[0], now), lines[1..]), StandingCalls(lines[1..], now);
      assert StandingCalls(lines, now) == head + rest;
      if head != [] {
        forall b | 0 <= b < |rest| ensures rest[b].0 != head[0].0 {
          assert rest[b] in rest;
          StandingCallsAre(lines[1..], now, rest[b].0, rest[b].1);
          var i: nat :| StandsAt(lines[1..], i, rest[b].0, rest[b].1, now);
          assert !Closes(lines[1..][i], head[0].0);
        }
        assert head + rest == [head[0]] + rest;
      } else {
        assert head + rest == rest;
      }
    }
  }

  lemma {:induction false} NewestEndInTail(earlier: seq<Line>, later: seq<Line>)
    ensures TurnEvent(earlier + later) == if TurnEvent(later).Some? then TurnEvent(later) else TurnEvent(earlier)
    ensures NewestTurnEnd(earlier + later)
         == if NewestTurnEnd(later).Some? then NewestTurnEnd(later) else NewestTurnEnd(earlier)
  {
    if later == [] {
      assert earlier + later == earlier;
    } else {
      var front, last := later[..|later| - 1], later[|later| - 1];
      NewestEndInTail(earlier, front);
      assert earlier + later == (earlier + front) + [last] && later == front + [last];
      TurnOneMore(earlier + front, last);
      TurnOneMore(front, last);
    }
  }

  lemma CallsOfConcat(a: seq<(string, OpenCall)>, b: seq<(string, OpenCall)>)
    ensures Calls(a + b) == Calls(a) + Calls(b)
  {
  }

  /** However a rollout is cut, what the tail calls open is a suffix of what the
      whole file calls open, and what the whole adds was started before the cut
      and not closed after it. A turn end the tail shows is the whole's newest. */
  lemma TailIsSound(earlier: seq<Line>, fragment: Line, later: seq<Line>, now: i64)
    ensures var tail := Probe([fragment] + later, true, now);
            var whole := Probe(earlier + later, false, now);
            && tail.incomplete
            && whole.openCalls == Calls(Survivors(earlier, later, now)) + tail.openCalls
            && (tail.lastTurnEnd.Some? ==> whole.lastTurnEnd == tail.lastTurnEnd)
            && (TurnEvent(later).Some? ==> whole.openTurn == tail.openTurn)
    ensures forall c | c in Survivors(earlier, later, now) :: c in StandingCalls(earlier, now) && Stands(later, c.0)
  {
    assert Window([fragment] + later, true) == later;
    var standing, survivors := StandingCalls(later, now), Survivors(earlier, later, now);
    assert StandingCalls(earlier + later, now) == survivors + standing by {
      StandingSplits(earlier, later, now);
    }
    CallsOfConcat(survivors, standing);
    SurvivorsAreEarlier(earlier, later, now);
    NewestEndInTail(earlier, later);
  }
}
