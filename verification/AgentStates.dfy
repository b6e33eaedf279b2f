/** What an agent is doing, from one probe of its own file and two facts about
    its processes. */
module AgentStates {
  import opened Prelude

  datatype AgentState = Thinking | WaitingForInput | Finished | Errored | Stalled

  datatype ToolExecution = Instant | Spawns | Opaque

  datatype Worker = Present | Absent | Unknown

  datatype AgentProcess = Found | NotSeen

  /** A call seen started and not seen finished; its age in seconds when the
      record carried a usable stamp. */
  datatype OpenCall = OpenCall(name: string, age: Option<nat>, execution: ToolExecution)

  datatype TurnEnd = TurnEnd(marker: string, failed: bool, interrupted: bool, promptReturned: bool)

  datatype TranscriptProbe = TranscriptProbe(
    openCalls: seq<OpenCall>,
    openTurn: Option<nat>,
    errored: bool,
    incomplete: bool,
    lastTurnEnd: Option<TurnEnd>
  )

  const GRACE: nat := 5
  const TRUST_HORIZON: nat := 30 * 60

  /** Still evidence: an opaque call while its agent is there, any other call
      that is not known to be older than the horizon. */
  predicate IsFresh(call: OpenCall, agent: AgentProcess) {
    if call.execution == Opaque then agent == Found
    else call.age == None || call.age.value < TRUST_HORIZON
  }

  function FreshCalls(calls: seq<OpenCall>, agent: AgentProcess): seq<OpenCall> {
    if calls == [] then []
    else (if IsFresh(calls[0], agent) then [calls[0]] else []) + FreshCalls(calls[1..], agent)
  }

  predicate VotesWaiting(call: OpenCall, worker: Worker) {
    match call.age
    case None => false
    case Some(age) =>
      if age < GRACE then false
      else
        match call.execution
        case Instant => worker != Present
        case Spawns => worker == Absent
        case Opaque => false
  }

  /** `classify`. */
  function Classify(probe: TranscriptProbe, worker: Worker, agent: AgentProcess): AgentState {
    if probe.errored then Errored
    else if probe.incomplete then
      match worker
      case Absent => Finished
      case Present => Thinking
      case Unknown => if probe.openCalls == [] && probe.openTurn == None then Finished else Thinking
    else
      var recent := FreshCalls(probe.openCalls, agent);
      if recent == [] then
        if probe.openTurn.Some? && probe.openTurn.value < TRUST_HORIZON && agent == Found then Thinking else Finished
      else if agent == Found && exists i :: 0 <= i < |recent| && VotesWaiting(recent[i], worker) then WaitingForInput
      else Thinking
  }

  lemma {:induction false} FreshCallsAre(calls: seq<OpenCall>, agent: AgentProcess)
    ensures forall c :: c in FreshCalls(calls, agent) <==> c in calls && IsFresh(c, agent)
  {
    if calls != [] {
      FreshCallsAre(calls[1..], agent);
      assert calls == [calls[0]] + calls[1..];
    }
  }

  /** A call on which a person may be kept: known to be open for at least five
      seconds and less than half an hour, with the process bearing it out. */
  predicate Evidence(call: OpenCall, worker: Worker) {
    && call.age.Some? && 5 <= call.age.value < 1_800
    && ((call.execution == Instant && worker != Present) || (call.execution == Spawns && worker == Absent))
  }

  /** "Waiting for you" is claimed exactly on positive evidence. */
  lemma WaitingIsEvidence(probe: TranscriptProbe, worker: Worker, agent: AgentProcess)
    ensures Classify(probe, worker, agent) == WaitingForInput
       <==> && !probe.errored && !probe.incomplete && agent == Found
            && exists c :: c in probe.openCalls && Evidence(c, worker)
  {
    var recent := FreshCalls(probe.openCalls, agent);
    FreshCallsAre(probe.openCalls, agent);
    if agent == Found {
      if c :| c in probe.openCalls && Evidence(c, worker) {
        assert c in recent && VotesWaiting(c, worker);
        var i :| 0 <= i < |recent| && recent[i] == c;
      }
      if i :| 0 <= i < |recent| && VotesWaiting(recent[i], worker) {
        assert recent[i] in recent && Evidence(recent[i], worker);
      }
    }
  }

  /** A call that says nothing any more: one of unknown length once its agent is
      gone, any other once it is known to be half an hour old. */
  predicate Spent(call: OpenCall, agent: AgentProcess) {
    || (call.execution == Opaque && agent == NotSeen)
    || (call.execution != Opaque && call.age.Some? && call.age.value >= 1_800)
  }

  /** At rest exactly when there is no error and nothing is in flight: in a
      window that can be trusted, every open call is spent and no turn of less
      than half an hour is open under a live agent; in one that cannot, no worker
      is seen, and where that is not known either, nothing that could be read is
      open. */
  lemma FinishedMeansNothingInFlight(probe: TranscriptProbe, worker: Worker, agent: AgentProcess)
    ensures Classify(probe, worker, agent) == Finished
       <==> && !probe.errored
            && (if probe.incomplete then
                  worker != Present && (worker == Unknown ==> probe.openCalls == [] && probe.openTurn == None)
                else
                  && (forall c | c in probe.openCalls :: Spent(c, agent))
                  && !(agent == Found && probe.openTurn.Some? && probe.openTurn.value < 1_800))
  {
    var recent := FreshCalls(probe.openCalls, agent);
    FreshCallsAre(probe.openCalls, agent);
    assert forall c :: IsFresh(c, agent) <==> !Spent(c, agent);
    if recent != [] {
      assert recent[0] in recent;
    }
  }

  /** The other words: an error is said exactly when the window ends in one, a
      stall never, and everything not waiting and not at rest is work. */
  lemma OtherwiseErrorOrWork(probe: TranscriptProbe, worker: Worker, agent: AgentProcess)
    ensures Classify(probe, worker, agent) == Errored <==> probe.errored
    ensures Classify(probe, worker, agent) != Stalled
    ensures !probe.errored && probe.incomplete && worker == Present ==> Classify(probe, worker, agent) == Thinking
  {
  }
}
