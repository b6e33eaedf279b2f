/** The answer of the newest turn that has ended in a rollout. */
module CodexAnswer {
  import opened Prelude
  import opened Text
  import opened Rollout

  datatype Answer = Found(text: string) | TurnFailed(text: string) | Aborted | NotYet

  // ---- what a single line says ----

  /** `non_blank`. */
  function NonBlank(f: Field): (r: Option<string>)
    ensures r.Some? ==> r.value != "" && !IsWhitespace(r.value[|r.value| - 1])
  {
    if f.Text? && !IsBlank(f.text) then Some(TrimEnd(f.text)) else None
  }

  predicate IsEvent(line: Line, kind: string) {
    line.Line? && line.record.Some? && Is(line.record.value, "event_msg", kind)
  }

  predicate IsEnding(line: Line) { IsEvent(line, "task_complete") || IsEvent(line, "turn_aborted") }

  /** Where one turn's words stop and another's begin. */
  predicate IsBoundary(line: Line) { IsEvent(line, "task_started") || IsEnding(line) }

  predicate IsAssistantMessage(line: Line) {
    && line.Line? && line.record.Some? && Is(line.record.value, "response_item", "message")
    && line.record.value.payload.value.role == Text("assistant")
  }

  /** The `output_text` blocks, joined by a blank line. */
  function OutputText(blocks: seq<Block>): seq<string> {
    if blocks == [] then []
    else (if blocks[0].kind == Text("output_text") && blocks[0].text.Text? then [blocks[0].text.text] else [])
         + OutputText(blocks[1..])
  }

  function Join(parts: seq<string>): string {
    if parts == [] then ""
    else if |parts| == 1 then parts[0]
    else parts[0] + "\n\n" + Join(parts[1..])
  }

  /** What the assistant says on a line, if it says anything. */
  function Says(line: Line): Option<string> {
    if IsEvent(line, "agent_message") then NonBlank(line.record.value.payload.value.message)
    else if IsAssistantMessage(line) then NonBlank(Text(Join(OutputText(line.record.value.payload.value.content))))
    else None
  }

  // ---- what a window of lines says ----

  /** The last thing said since the last boundary. */
  function Said(lines: seq<Line>): Option<string> {
    if lines == [] then None
    else
      var last := lines[|lines| - 1];
      if IsBoundary(last) then None
      else if Says(last).Some? then Says(last)
      else Said(lines[..|lines| - 1])
  }

  /** The answer of the turn `ending` ends, after `before`. */
  function AnswerOf(ending: Line, before: seq<Line>): Answer
    requires IsEnding(ending)
  {
    var p := ending.record.value.payload.value;
    if IsEvent(ending, "turn_aborted") then Aborted
    else
      match p.error
      case Failed(message, rendered) =>
        TurnFailed(if NonBlank(message).Some? then NonBlank(message).value else rendered)
      case NoError =>
        var answer := if NonBlank(p.lastAgentMessage).Some? then NonBlank(p.lastAgentMessage) else Said(before);
        if answer.Some? then Found(answer.value) else NotYet
  }

  function NewestAnswer(lines: seq<Line>): Answer {
    if lines == [] then NotYet
    else
      var front, last := lines[..|lines| - 1], lines[|lines| - 1];
      if IsEnding(last) then AnswerOf(last, front) else NewestAnswer(front)
  }

  // ---- the one-pass reader ----

  /** `last_answer_from_text`. */
  method LastAnswerFromText(lines: seq<Line>, truncatedHead: bool) returns (newest: Answer)
    ensures newest == NewestAnswer(Window(lines, truncatedHead))
  {
    newest := NotYet;
    var said: Option<string> := None;
    ghost var seen: seq<Line> := [];
    for index := 0 to |lines|
      invariant seen == Window(lines[..index], truncatedHead)
      invariant newest == NewestAnswer(seen) && said == Said(seen)
    {
      WindowGrows(lines, truncatedHead, index);
      if index == 0 && truncatedHead {
        continue;
      }
      newest, said := TakeLine(newest, said, lines[index], seen);
      seen := seen + [lines[index]];
    }
    assert lines[..|lines|] == lines;
  }

  /** The loop's body. */
  method TakeLine(newest0: Answer, said0: Option<string>, line: Line, ghost seen: seq<Line>)
    returns (newest: Answer, said: Option<string>)
    requires newest0 == NewestAnswer(seen) && said0 == Said(seen)
    ensures newest == NewestAnswer(seen + [line]) && said == Said(seen + [line])
  {
    assert (seen + [line])[..|seen|] == seen;
    newest, said := newest0, said0;
    if line.Blank? || line.record == None || line.record.value.payload == None {
      return;
    }
    var kind, payload := line.record.value.kind, line.record.value.payload.value;
    if kind == Text("event_msg") && payload.kind == Text("task_started") {
      said := None;
    } else if kind == Text("event_msg") && payload.kind == Text("agent_message") {
      if NonBlank(payload.message).Some? {
        said := NonBlank(payload.message);
      }
    } else if kind == Text("response_item") && payload.kind == Text("message") && payload.role == Text("assistant") {
      var joined := Join(OutputText(payload.content));
      if !IsBlank(joined) {
        said := Some(TrimEnd(joined));
      }
    } else if kind == Text("event_msg") && payload.kind == Text("task_complete") {
      if payload.error.Failed? {
        var message := NonBlank(payload.error.message);
        newest := TurnFailed(if message.Some? then message.value else payload.error.rendered);
      } else {
        var answer := NonBlank(payload.lastAgentMessage);
        if answer == None {
          answer := said;
        }
        newest := if answer.Some? then Found(answer.value) else NotYet;
      }
      said := None;
    } else if kind == Text("event_msg") && payload.kind == Text("turn_aborted") {
      newest, said := Aborted, None;
    }
  }

  // ---- whose answer it is ----

  /** Line `i` is the last that ends a turn. */
  ghost predicate LastEnding(lines: seq<Line>, i: nat) {
    i < |lines| && IsEnding(lines[i]) && forall j | i < j < |lines| :: !IsEnding(lines[j])
  }

  lemma {:induction false} AnswerIsTheLastEndings(lines: seq<Line>, i: nat)
    requires LastEnding(lines, i)
    ensures NewestAnswer(lines) == AnswerOf(lines[i], lines[..i])
  {
    if i + 1 < |lines| {
      AnswerIsTheLastEndings(lines[..|lines| - 1], i);
      assert lines[..|lines| - 1][..i] == lines[..i];
    }
  }

  lemma {:induction false} NoEndingNoAnswer(lines: seq<Line>)
    requires forall i | 0 <= i < |lines| :: !IsEnding(lines[i])
    ensures NewestAnswer(lines) == NotYet
  {
    if lines != [] {
      NoEndingNoAnswer(lines[..|lines| - 1]);
    }
  }

  lemma {:induction false} SomeEndingIsLast(lines: seq<Line>) returns (i: nat)
    requires exists k :: 0 <= k < |lines| && IsEnding(lines[k])
    ensures LastEnding(lines, i)
  {
    if IsEnding(lines[|lines| - 1]) {
      i := |lines| - 1;
    } else {
      i := SomeEndingIsLast(lines[..|lines| - 1]);
    }
  }

  /** Line `k` says `text`, and nothing after it says more or crosses a boundary. */
  ghost predicate LastSaid(lines: seq<Line>, k: nat, text: string) {
    && k < |lines| && Says(lines[k]) == Some(text) && !IsBoundary(lines[k])
    && forall j | k < j < |lines| :: !IsBoundary(lines[j]) && Says(lines[j]) == None
  }

  lemma LastSaidBefore(front: seq<Line>, last: Line, k: nat, text: string)
    requires k < |front|
    ensures LastSaid(front + [last], k, text) <==> LastSaid(front, k, text) && !IsBoundary(last) && Says(last) == None
  {
    var lines := front + [last];
    assert lines[|front|] == last;
    assert forall j | 0 <= j < |front| :: lines[j] == front[j];
  }

  lemma {:induction false} SaidIsLastSaid(lines: seq<Line>, text: string)
    ensures Said(lines) == Some(text) <==> exists k: nat :: LastSaid(lines, k, text)
  {
    if lines != [] {
      var front, last := lines[..|lines| - 1], lines[|lines| - 1];
      SaidIsLastSaid(front, text);
      assert lines == front + [last];
      forall k: nat | k < |front|
        ensures LastSaid(lines, k, text) <==> LastSaid(front, k, text) && !IsBoundary(last) && Says(last) == None
      {
        LastSaidBefore(front, last, k, text);
      }
      assert LastSaid(lines, |front|, text) <==> !IsBoundary(last) && Says(last) == Some(text);
      forall k: nat | LastSaid(lines, k, text) ensures k < |front| || k == |front| {
      }
    }
  }

  /** An answer is found exactly when the last ending completes a turn without
      error, and then it is that ending's own message, or, when that is blank,
      the last words since the boundary before it. */
  lemma FoundIsTheNewestTurns(lines: seq<Line>, text: string)
    ensures NewestAnswer(lines) == Found(text)
       <==> exists i: nat ::
              && LastEnding(lines, i) && IsEvent(lines[i], "task_complete")
              && var p := lines[i].record.value.payload.value;
                 && p.error.NoError?
                 && (NonBlank(p.lastAgentMessage) == Some(text)
                     || (NonBlank(p.lastAgentMessage) == None && exists k: nat :: LastSaid(lines[..i], k, text)))
  {
    if exists k :: 0 <= k < |lines| && IsEnding(lines[k]) {
      var i := SomeEndingIsLast(lines);
      AnswerIsTheLastEndings(lines, i);
      SaidIsLastSaid(lines[..i], text);
      forall j: nat | LastEnding(lines, j) ensures j == i {
      }
    } else {
      NoEndingNoAnswer(lines);
    }
  }

  // ---- what the answer means, said of the records ----

  predicate Tells(line: Line, recordKind: string, kind: string) {
    && line.Line? && line.record.Some? && line.record.value.kind == Text(recordKind)
    && line.record.value.payload.Some? && line.record.value.payload.value.kind == Text(kind)
  }

  predicate Ends(line: Line) { Tells(line, "event_msg", "task_complete") || Tells(line, "event_msg", "turn_aborted") }

  predicate Bounds(line: Line) { Ends(line) || Tells(line, "event_msg", "task_started") }

  /** A text that is not blank, without the blanks it ends in. */
  predicate Shown(text: string, written: string) { !IsBlank(written) && text == TrimEnd(written) }

  /** A message of the agent, or an assistant message's text blocks joined. */
  predicate SaysText(line: Line, text: string) {
    || (Tells(line, "event_msg", "agent_message")
        && var message := line.record.value.payload.value.message; message.Text? && Shown(text, message.text))
    || (Tells(line, "response_item", "message")
        && var p := line.record.value.payload.value; p.role == Text("assistant") && Shown(text, Join(OutputText(p.content))))
  }

  predicate LastEndAt(lines: seq<Line>, i: nat) {
    i < |lines| && Ends(lines[i]) && forall j | i < j < |lines| :: !Ends(lines[j])
  }

  ghost predicate SaysNothing(line: Line) { forall text :: !SaysText(line, text) }

  ghost predicate SaidLastAt(lines: seq<Line>, k: nat, text: string) {
    && k < |lines| && SaysText(lines[k], text) && forall j | k < j < |lines| :: !Bounds(lines[j]) && SaysNothing(lines[j])
  }

  /** The text blocks come in order, and nothing else does. */
  lemma {:induction false} OutputTextOneMore(blocks: seq<Block>, last: Block)
    ensures OutputText([]) == []
    ensures OutputText(blocks + [last])
         == OutputText(blocks) + (if last.kind == Text("output_text") && last.text.Text? then [last.text.text] else [])
  {
    if blocks == [] {
      assert [last][1..] == [] && blocks + [last] == [last];
    } else {
      assert (blocks + [last])[1..] == blocks[1..] + [last];
      OutputTextOneMore(blocks[1..], last);
    }
  }

  /** Parts are joined by a blank line. */
  lemma {:induction false} JoinOneMore(parts: seq<string>, last: string)
    ensures Join([]) == "" && Join([last]) == last
    ensures parts != [] ==> Join(parts + [last]) == Join(parts) + "\n\n" + last
  {
    if |parts| > 1 {
      assert (parts + [last])[1..] == parts[1..] + [last];
      JoinOneMore(parts[1..], last);
    } else if |parts| == 1 {
      assert (parts + [last])[1..] == [last];
    }
  }

  lemma SameWords(line: Line, text: string)
    ensures IsEnding(line) == Ends(line) && IsBoundary(line) == Bounds(line)
    ensures IsEvent(line, "task_complete") == Tells(line, "event_msg", "task_complete")
    ensures IsEvent(line, "turn_aborted") == Tells(line, "event_msg", "turn_aborted")
    ensures Says(line) == Some(text) <==> SaysText(line, text)
  {
  }

  lemma SaysNothingIs(line: Line)
    ensures Says(line) == None <==> SaysNothing(line)
  {
    if Says(line).Some? {
      SameWords(line, Says(line).value);
    }
    forall text ensures Says(line) == Some(text) <==> SaysText(line, text) {
      SameWords(line, text);
    }
  }

  lemma LastSaidIs(lines: seq<Line>, k: nat, text: string)
    ensures LastSaid(lines, k, text) <==> SaidLastAt(lines, k, text)
  {
    forall j | 0 <= j < |lines|
      ensures IsBoundary(lines[j]) == Bounds(lines[j]) && (Says(lines[j]) == None <==> SaysNothing(lines[j]))
    {
      SameWords(lines[j], text);
      SaysNothingIs(lines[j]);
    }
    if k < |lines| {
      SameWords(lines[k], text);
    }
  }

  lemma LastEndingIs(lines: seq<Line>, i: nat)
    ensures LastEnding(lines, i) <==> LastEndAt(lines, i)
  {
    forall j | 0 <= j < |lines| ensures IsEnding(lines[j]) == Ends(lines[j]) {
      SameWords(lines[j], "");
    }
  }

  /** What each answer says of the last record that ends a turn. */
  ghost predicate Answers(lines: seq<Line>, i: nat, answer: Answer)
    requires i < |lines| && Ends(lines[i])
  {
    var p := lines[i].record.value.payload.value;
    match answer
    case Aborted => Tells(lines[i], "event_msg", "turn_aborted")
    case TurnFailed(text) =>
      && Tells(lines[i], "event_msg", "task_complete") && p.error.Failed?
      && (if p.error.message.Text? && !IsBlank(p.error.message.text) then text == TrimEnd(p.error.message.text)
          else text == p.error.rendered)
    case Found(text) =>
      && Tells(lines[i], "event_msg", "task_complete") && p.error == NoError
      && (if p.lastAgentMessage.Text? && !IsBlank(p.lastAgentMessage.text) then text == TrimEnd(p.lastAgentMessage.text)
          else exists k: nat :: SaidLastAt(lines[..i], k, text))
    case NotYet =>
      && Tells(lines[i], "event_msg", "task_complete") && p.error == NoError
      && !(p.lastAgentMessage.Text? && !IsBlank(p.lastAgentMessage.text))
      && forall k: nat, text :: !SaidLastAt(lines[..i], k, text)
  }

  /** Every answer, exactly: it is that of the last record that ends a turn, and
      without such a record there is none yet. */
  lemma AnswerMeans(lines: seq<Line>, answer: Answer)
    ensures NewestAnswer(lines) == answer
       <==> if exists i: nat :: LastEndAt(lines, i) then exists i: nat :: LastEndAt(lines, i) && Answers(lines, i, answer)
            else answer == NotYet
  {
    forall i: nat ensures LastEnding(lines, i) <==> LastEndAt(lines, i) {
      LastEndingIs(lines, i);
    }
    if i: nat :| LastEndAt(lines, i) {
      AnswerIsTheLastEndings(lines, i);
      AnswerOfMeans(lines, i, answer);
      forall j: nat | LastEndAt(lines, j) ensures j == i {
      }
    } else {
      if k :| 0 <= k < |lines| && IsEnding(lines[k]) {
        var i := SomeEndingIsLast(lines);
      }
      NoEndingNoAnswer(lines);
    }
  }

  lemma SaidMeans(lines: seq<Line>, text: string)
    ensures Said(lines) == Some(text) <==> exists k: nat :: SaidLastAt(lines, k, text)
  {
    SaidIsLastSaid(lines, text);
    forall k: nat ensures LastSaid(lines, k, text) <==> SaidLastAt(lines, k, text) {
      LastSaidIs(lines, k, text);
    }
  }

  lemma AnswerOfMeans(lines: seq<Line>, i: nat, answer: Answer)
    requires i < |lines| && Ends(lines[i]) && IsEnding(lines[i])
    ensures AnswerOf(lines[i], lines[..i]) == answer <==> Answers(lines, i, answer)
  {
    var before := lines[..i];
    SameWords(lines[i], "");
    match answer {
      case Found(text) =>
        SaidMeans(before, text);
      case NotYet =>
        forall k: nat, text ensures Said(before) == None ==> !SaidLastAt(before, k, text) {
          SaidMeans(before, text);
        }
        if Said(before).Some? {
          SaidMeans(before, Said(before).value);
        }
      case Aborted =>
      case TurnFailed(_) =>
    }
  }

  // ---- a tail is enough ----

  lemma SaidOneMore(front: seq<Line>, last: Line)
    ensures Said(front + [last]) == if IsBoundary(last) then None else if Says(last).Some? then Says(last) else Said(front)
  {
    assert (front + [last])[..|front|] == front;
  }

  lemma {:induction false} SaidInTail(earlier: seq<Line>, later: seq<Line>)
    requires exists b :: 0 <= b < |later| && IsBoundary(later[b])
    ensures Said(earlier + later) == Said(later)
  {
    var front, last := later[..|later| - 1], later[|later| - 1];
    assert later == front + [last] && earlier + later == (earlier + front) + [last];
    SaidOneMore(front, last);
    SaidOneMore(earlier + front, last);
    if !IsBoundary(last) && Says(last) == None {
      var b :| 0 <= b < |later| && IsBoundary(later[b]);
      assert IsBoundary(front[b]);
      SaidInTail(earlier, front);
    }
  }

  lemma LastEndingOfWhole(earlier: seq<Line>, later: seq<Line>, i: nat)
    requires LastEnding(later, i)
    ensures LastEnding(earlier + later, |earlier| + i)
  {
    var whole := earlier + later;
    forall j | |earlier| + i < j < |whole| ensures !IsEnding(whole[j]) {
      assert whole[j] == later[j - |earlier|];
    }
  }

  /** A tail that holds the newest ending and a boundary before it gives the
      whole file's answer, however the read began. */
  lemma TailAnswersForTheWhole(earlier: seq<Line>, fragment: Line, later: seq<Line>, i: nat, b: nat)
    requires LastEnding(later, i) && b < i && IsBoundary(later[b])
    ensures NewestAnswer(Window([fragment] + later, true)) == NewestAnswer(earlier + later)
  {
    var whole, before := earlier + later, later[..i];
    assert Window([fragment] + later, true) == later;
    assert NewestAnswer(later) == AnswerOf(later[i], before) by {
      AnswerIsTheLastEndings(later, i);
    }
    LastEndingOfWhole(earlier, later, i);
    assert whole[..|earlier| + i] == earlier + before;
    assert NewestAnswer(whole) == AnswerOf(later[i], earlier + before) by {
      AnswerIsTheLastEndings(whole, |earlier| + i);
    }
    assert IsBoundary(before[b]);
    SaidInTail(earlier, before);
  }
}
