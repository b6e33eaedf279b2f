/** When a session began to wait, and when its run began, over whole histories. */
module RunClocks {
  import opened Prelude
  import opened AgentStates

  /** `next_turn_started`. `prev` is the state before with the stamp it had. */
  function NextTurnStarted(prev: Option<(AgentState, Option<int>)>, newState: AgentState, now: int): Option<int> {
    var previous := if prev.Some? then prev.value.1 else None;
    if newState == Thinking then
      if prev.Some? && (prev.value.0 == Thinking || prev.value.0 == WaitingForInput || prev.value.0 == Stalled) then
        if previous.Some? then previous else Some(now)
      else Some(now)
    else previous
  }

  /** `next_waiting_since`. */
  function NextWaitingSince(prev: Option<(AgentState, Option<int>)>, newState: AgentState, now: int): Option<int> {
    if newState == WaitingForInput then
      if prev.Some? && prev.value.0 == WaitingForInput && prev.value.1.Some? then prev.value.1 else Some(now)
    else None
  }

  /** One write of a session's state. Times are milliseconds. */
  datatype Write = Write(state: AgentState, at: int)

  /** The stamps a session carries after its writes, as the upsert keeps them. */
  function WaitingSince(writes: seq<Write>): Option<int> {
    if writes == [] then None
    else
      var front, last := writes[..|writes| - 1], writes[|writes| - 1];
      var prev := if front == [] then None else Some((front[|front| - 1].state, WaitingSince(front)));
      NextWaitingSince(prev, last.state, last.at)
  }

  function TurnStarted(writes: seq<Write>): Option<int> {
    if writes == [] then None
    else
      var front, last := writes[..|writes| - 1], writes[|writes| - 1];
      var prev := if front == [] then None else Some((front[|front| - 1].state, TurnStarted(front)));
      NextTurnStarted(prev, last.state, last.at)
  }

  predicate InOrder(writes: seq<Write>) { forall i, j | 0 <= i <= j < |writes| :: writes[i].at <= writes[j].at }

  // ---- waiting ----

  /** Write `i` begins the unbroken stretch of waiting that the history ends in. */
  ghost predicate WaitBegins(writes: seq<Write>, i: nat) {
    && i < |writes| && (forall j | i <= j < |writes| :: writes[j].state == WaitingForInput)
    && (i > 0 ==> writes[i - 1].state != WaitingForInput)
  }

  lemma {:induction false} WaitStamp(writes: seq<Write>, i: nat)
    requires WaitBegins(writes, i)
    ensures WaitingSince(writes) == Some(writes[i].at)
    decreases |writes|
  {
    var n := |writes| - 1;
    var front := writes[..n];
    if i < n {
      WaitStamp(front, i);
      assert front[n - 1] == writes[n - 1];
    }
  }

  lemma {:induction false} WaitHasBeginning(writes: seq<Write>) returns (i: nat)
    requires writes != [] && writes[|writes| - 1].state == WaitingForInput
    ensures WaitBegins(writes, i)
    decreases |writes|
  {
    i := |writes| - 1;
    if i > 0 && writes[i - 1].state == WaitingForInput {
      i := WaitHasBeginning(writes[..i]);
    }
  }

  /** The wait shown is there exactly while the session waits, and counts from
      the start of the current unbroken wait. */
  lemma WaitCountsFromItsStart(writes: seq<Write>)
    ensures WaitingSince(writes).Some? <==> writes != [] && writes[|writes| - 1].state == WaitingForInput
    ensures forall i: nat | WaitBegins(writes, i) :: WaitingSince(writes) == Some(writes[i].at)
    ensures WaitingSince(writes).Some? ==> exists i: nat :: WaitBegins(writes, i)
  {
    forall i: nat | WaitBegins(writes, i) ensures WaitingSince(writes) == Some(writes[i].at) {
      WaitStamp(writes, i);
    }
    if writes != [] && writes[|writes| - 1].state == WaitingForInput {
      var i := WaitHasBeginning(writes);
    }
  }

  // ---- running ----

  predicate EndsRun(s: AgentState) { s == Finished || s == Errored }

  /** Write `i` enters a run: it thinks, and nothing came before, or a run had
      ended just before, or nothing had thought yet. */
  predicate Enters(writes: seq<Write>, i: nat)
    requires i < |writes|
  {
    writes[i].state == Thinking
    && (i == 0 || EndsRun(writes[i - 1].state) || forall j | 0 <= j < i :: writes[j].state != Thinking)
  }

  /** The latest write that enters a run. */
  ghost predicate LatestEntry(writes: seq<Write>, i: nat) {
    i < |writes| && Enters(writes, i) && forall j: nat | i < j < |writes| :: !Enters(writes, j)
  }

  lemma EntersOfFront(writes: seq<Write>, i: nat)
    requires i < |writes| - 1
    ensures Enters(writes[..|writes| - 1], i) == Enters(writes, i)
  {
    assert forall j | 0 <= j <= i :: writes[..|writes| - 1][j] == writes[j];
  }

  /** The run's stamp is the time of the latest entry into a run. It is there
      exactly once something has thought, so it is never cleared. */
  lemma {:induction false} StampIsTheLatestEntry(writes: seq<Write>)
    ensures TurnStarted(writes).Some? <==> exists j :: 0 <= j < |writes| && writes[j].state == Thinking
    ensures forall i: nat | LatestEntry(writes, i) :: TurnStarted(writes) == Some(writes[i].at)
    ensures TurnStarted(writes).Some? ==> exists i: nat :: LatestEntry(writes, i)
  {
    if writes != [] {
      var n: nat := |writes| - 1;
      var front, last := writes[..n], writes[n];
      StampIsTheLatestEntry(front);
      forall i: nat | i < n ensures Enters(front, i) == Enters(writes, i) {
        EntersOfFront(writes, i);
      }
      assert forall j | 0 <= j < n :: front[j] == writes[j];
      forall i: nat | i < n && !Enters(writes, n) ensures LatestEntry(writes, i) <==> LatestEntry(front, i) {
      }
      if last.state == Thinking {
        assert writes[n].state == Thinking;
        if Enters(writes, n) {
          assert LatestEntry(writes, n);
          assert TurnStarted(writes) == Some(last.at);
          forall i: nat | LatestEntry(writes, i) ensures i == n {
          }
        }
      }
      if TurnStarted(front).Some? {
        var j :| 0 <= j < n && front[j].state == Thinking;
        assert writes[j].state == Thinking;
        var i: nat :| LatestEntry(front, i);
        if !Enters(writes, n) {
          assert LatestEntry(writes, i);
        }
      }
    }
  }

  /** Once stamped a session stays stamped, a thinking session is stamped, and no stamp lies ahead. */
  lemma StampNeverClearedNorAhead(writes: seq<Write>, last: Write)
    requires InOrder(writes + [last])
    ensures TurnStarted(writes).Some? ==> TurnStarted(writes + [last]).Some?
    ensures last.state == Thinking ==> TurnStarted(writes + [last]).Some?
    ensures TurnStarted(writes + [last]).Some? ==> TurnStarted(writes + [last]).value <= last.at
  {
    var all := writes + [last];
    assert all[..|writes|] == writes;
    StampIsTheLatestEntry(all);
    if TurnStarted(all).Some? {
      var i: nat :| LatestEntry(all, i);
      assert all[i].at <= all[|writes|].at;
    }
  }

  // ---- how long it ran ----

  /** The last write that ended a run. */
  ghost predicate LastEnd(writes: seq<Write>, e: nat) {
    e < |writes| && EndsRun(writes[e].state) && forall j | e < j < |writes| :: !EndsRun(writes[j].state)
  }

  /** A thinking session's stamp belongs to the run it is in exactly when that
      run's first write after the last end was thinking, or nothing had thought
      before that end. A run that begins by waiting keeps the stamp of the run
      before it. */
  lemma StampIsThisRuns(writes: seq<Write>, e: nat, i: nat)
    requires LastEnd(writes, e) && writes[|writes| - 1].state == Thinking && LatestEntry(writes, i)
    ensures i > e <==> writes[e + 1].state == Thinking || forall j | 0 <= j < e :: writes[j].state != Thinking
  {
    var n: nat := |writes| - 1;
    if writes[e + 1].state == Thinking {
      assert Enters(writes, e + 1);
    } else if forall j | 0 <= j < e :: writes[j].state != Thinking {
      var first := FirstThinking(writes, e);
      assert Enters(writes, first);
    } else {
      var j :| 0 <= j < e && writes[j].state == Thinking;
      forall k: nat | e < k <= n ensures !Enters(writes, k) {
        assert writes[k - 1].state == writes[k - 1].state;
      }
    }
  }

  lemma FirstThinking(writes: seq<Write>, e: nat) returns (first: nat)
    requires e < |writes| && writes[|writes| - 1].state == Thinking
    requires forall j | 0 <= j <= e :: writes[j].state != Thinking
    ensures e < first < |writes| && writes[first].state == Thinking
    ensures forall j | 0 <= j < first :: writes[j].state != Thinking
  {
    first := e + 1;
    while writes[first].state != Thinking
      invariant e < first < |writes|
      invariant forall j | 0 <= j < first :: writes[j].state != Thinking
      decreases |writes| - first
    {
      first := first + 1;
    }
  }

  // ---- the life of an entry ----

  /** How long after a stop a session that is still finished is dropped. */
  const CLEAR_AFTER_MS := 5_000

  /** A write of the session's state, by an agent's stop or by anything else; or
      the session is dropped. */
  datatype Happening = Wrote(write: Write, stop: bool) | Dropped(at: int) {
    function When(): int { if Wrote? then write.at else at }

    predicate IsStop() { Wrote? && stop && write.state == Finished }
  }

  datatype Entry = Entry(state: AgentState, waitingSince: Option<int>, turnStarted: Option<int>)

  /** `upsert_session_state`, as far as the clocks go. */
  function Upserted(entry: Option<Entry>, w: Write): Entry {
    match entry
    case None => Entry(w.state, NextWaitingSince(None, w.state, w.at), NextTurnStarted(None, w.state, w.at))
    case Some(s) =>
      Entry(w.state, NextWaitingSince(Some((s.state, s.waitingSince)), w.state, w.at),
            NextTurnStarted(Some((s.state, s.turnStarted)), w.state, w.at))
  }

  function EntryAfter(history: seq<Happening>): Option<Entry> {
    if history == [] then None
    else
      var entry := EntryAfter(history[..|history| - 1]);
      match history[|history| - 1]
      case Wrote(w, _) => Some(Upserted(entry, w))
      case Dropped(_) => None
  }

  /** What was written since the session was last dropped. */
  function Life(history: seq<Happening>): (life: seq<Happening>)
    ensures |life| <= |history| && life == history[|history| - |life|..]
    ensures forall k | 0 <= k < |life| :: life[k].Wrote?
  {
    if history == [] || history[|history| - 1].Dropped? then []
    else
      var front, last := history[..|history| - 1], history[|history| - 1];
      assert history == front + [last];
      Life(front) + [last]
  }

  function WritesOf(life: seq<Happening>): (writes: seq<Write>)
    requires forall k | 0 <= k < |life| :: life[k].Wrote?
    ensures |writes| == |life| && forall k | 0 <= k < |life| :: writes[k] == life[k].write
  {
    seq(|life|, k requires 0 <= k < |life| => life[k].write)
  }

  /** The program's entry carries the stamps of the writes since the session was
      last dropped, and of no others. */
  lemma {:induction false} EntryIsItsLife(history: seq<Happening>)
    ensures EntryAfter(history) == EntryOf(WritesOf(Life(history)))
  {
    if history != [] && history[|history| - 1].Wrote? {
      var front, last := history[..|history| - 1], history[|history| - 1];
      EntryIsItsLife(front);
      var before := WritesOf(Life(front));
      assert WritesOf(Life(history)) == before + [last.write];
      EntryOfOneMore(before, last.write);
    }
  }

  /** The state and the stamps after some writes. */
  function EntryOf(writes: seq<Write>): Option<Entry> {
    if writes == [] then None
    else Some(Entry(writes[|writes| - 1].state, WaitingSince(writes), TurnStarted(writes)))
  }

  lemma EntryOfOneMore(writes: seq<Write>, last: Write)
    ensures EntryOf(writes + [last]) == Some(Upserted(EntryOf(writes), last))
  {
    assert (writes + [last])[..|writes|] == writes;
  }

  /** A session that an agent's stop left finished is dropped in time unless
      something is written before. */
  predicate ClearedInTime(history: seq<Happening>) {
    forall k | 0 < k < |history| && history[k - 1].IsStop() :: history[k].When() <= history[k - 1].When() + CLEAR_AFTER_MS
  }

  lemma StopIsFollowedUp(history: seq<Happening>, e: nat)
    requires ClearedInTime(history) && e + 1 < |Life(history)|
    ensures var life := Life(history);
            life[e].IsStop() ==> life[e + 1].write.at <= life[e].write.at + CLEAR_AFTER_MS
  {
    var first := |history| - |Life(history)|;
    assert Life(history)[e] == history[first + e + 1 - 1] && Life(history)[e + 1] == history[first + e + 1];
  }

  /** The stamp of a run before can only be kept by a session that came back
      within five seconds of an agent's stop, in another state than thinking, or
      whose last run ended otherwise than by a stop. */
  lemma OldStampNeedsAQuickReturn(history: seq<Happening>, writes: seq<Write>, e: nat, i: nat)
    requires ClearedInTime(history) && writes == WritesOf(Life(history))
    requires LastEnd(writes, e) && writes[|writes| - 1].state == Thinking && LatestEntry(writes, i) && i <= e
    ensures EntryAfter(history).Some? && EntryAfter(history).value.turnStarted == Some(writes[i].at)
    ensures writes[e + 1].state != Thinking
    ensures Life(history)[e].IsStop() ==> writes[e + 1].at <= writes[e].at + 5_000
  {
    EntryIsItsLife(history);
    StampIsThisRuns(writes, e, i);
    StampIsTheLatestEntry(writes);
    StopIsFollowedUp(history, e);
  }

  lemma EntryOneMore(history: seq<Happening>, last: Happening)
    ensures EntryAfter(history + [last]) == if last.Wrote? then Some(Upserted(EntryAfter(history), last.write)) else None
  {
    assert (history + [last])[..|history|] == history;
  }

  lemma EntryOfFour(h: seq<Happening>)
    requires |h| == 4 && forall k | 0 <= k < 4 :: h[k].Wrote?
    ensures var two := Some(Upserted(Some(Upserted(None, h[0].write)), h[1].write));
            EntryAfter(h) == Some(Upserted(Some(Upserted(two, h[2].write)), h[3].write))
  {
    EntryOneMore([], h[0]);
    EntryOneMore([h[0]], h[1]);
    EntryOneMore([h[0], h[1]], h[2]);
    EntryOneMore([h[0], h[1], h[2]], h[3]);
    assert [] + [h[0]] == [h[0]] && [h[0]] + [h[1]] == [h[0], h[1]];
    assert [h[0], h[1]] + [h[2]] == [h[0], h[1], h[2]] && [h[0], h[1], h[2]] + [h[3]] == h;
  }

  /** A question asked a second after a stop makes the next run look ten minutes
      old when it begins, and one asked an hour after a crash makes it look an
      hour old. */
  lemma OldStampOverANewRun()
    ensures var stopped := [Wrote(Write(Thinking, 0), false), Wrote(Write(Finished, 600_000), true),
                            Wrote(Write(WaitingForInput, 601_000), false), Wrote(Write(Thinking, 602_000), false)];
            ClearedInTime(stopped) && EntryAfter(stopped) == Some(Entry(Thinking, None, Some(0)))
    ensures var crashed := [Wrote(Write(Thinking, 0), false), Wrote(Write(Errored, 10_000), false),
                            Wrote(Write(WaitingForInput, 3_600_000), false), Wrote(Write(Thinking, 3_610_000), false)];
            ClearedInTime(crashed) && EntryAfter(crashed) == Some(Entry(Thinking, None, Some(0)))
  {
    EntryOfFour([Wrote(Write(Thinking, 0), false), Wrote(Write(Finished, 600_000), true),
                 Wrote(Write(WaitingForInput, 601_000), false), Wrote(Write(Thinking, 602_000), false)]);
    EntryOfFour([Wrote(Write(Thinking, 0), false), Wrote(Write(Errored, 10_000), false),
                 Wrote(Write(WaitingForInput, 3_600_000), false), Wrote(Write(Thinking, 3_610_000), false)]);
  }

  /** Once the session was dropped, no stamp is older than its first write after. */
  lemma DropForgetsTheStamp(earlier: seq<Happening>, at: int, later: seq<Happening>)
    requires later != [] && forall k | 0 <= k < |later| :: later[k].Wrote?
    requires InOrder(WritesOf(later))
    ensures var entry := EntryAfter(earlier + [Dropped(at)] + later);
            entry.Some? && (entry.value.turnStarted.Some? ==> entry.value.turnStarted.value >= later[0].write.at)
  {
    LifeAfterDrop(earlier, at, later);
    EntryIsItsLife(earlier + [Dropped(at)] + later);
    var writes := WritesOf(later);
    StampIsTheLatestEntry(writes);
    if TurnStarted(writes).Some? {
      var i: nat :| LatestEntry(writes, i);
      assert writes[0].at <= writes[i].at;
    }
  }

  lemma {:induction false} LifeAfterDrop(earlier: seq<Happening>, at: int, later: seq<Happening>)
    requires forall k | 0 <= k < |later| :: later[k].Wrote?
    ensures Life(earlier + [Dropped(at)] + later) == later
    decreases |later|
  {
    var all := earlier + [Dropped(at)] + later;
    if later == [] {
      assert all == earlier + [Dropped(at)];
    } else {
      var front := later[..|later| - 1];
      LifeAfterDrop(earlier, at, front);
      assert all[..|all| - 1] == earlier + [Dropped(at)] + front;
      assert all[|all| - 1] == later[|later| - 1];
    }
  }
}
