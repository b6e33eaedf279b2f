/** Which surface a Codex rollout belongs to when nothing named its session. */
module RolloutBinding {
  import opened Prelude
  import opened SessionRanking
  import opened Text

  const INPUT_TO_FILE_SLACK_SECS := 5
  const RIVAL_GRACE_SECS := 4

  datatype RolloutHead = RolloutHead(id: string, cwd: string, createdSecs: i64, writtenSecs: i64)

  /** The time another surface in the directory may have created files in. */
  datatype RivalSpan = RivalSpan(fromSecs: int, untilSecs: int)

  datatype LaunchClaim = LaunchClaim(
    launchedSecs: i64,
    rivals: seq<RivalSpan>,
    inputSentSecs: Option<i64>,
    taken: set<string>
  )

  predicate Qualifies(head: RolloutHead, cwd: string, resolvedCwd: Option<string>, claim: LaunchClaim) {
    && (CwdMatches(head.cwd, cwd) || (resolvedCwd.Some? && CwdMatches(head.cwd, resolvedCwd.value)))
    && head.createdSecs >= claim.launchedSecs
    && !(exists r :: r in claim.rivals && r.fromSecs <= head.createdSecs as int <= r.untilSecs)
    && head.id !in claim.taken
    && claim.inputSentSecs.Some?
    && claim.inputSentSecs.value as int + INPUT_TO_FILE_SLACK_SECS >= head.writtenSecs as int
  }

  function Qualifying(cwd: string, resolvedCwd: Option<string>, claim: LaunchClaim,
                      heads: seq<RolloutHead>): seq<RolloutHead> {
    if heads == [] then []
    else (if Qualifies(heads[0], cwd, resolvedCwd, claim) then [heads[0]] else [])
         + Qualifying(cwd, resolvedCwd, claim, heads[1..])
  }

  /** `the_only_rollout_of`. */
  function TheOnlyRolloutOf(cwd: string, resolvedCwd: Option<string>, claim: LaunchClaim,
                            heads: seq<RolloutHead>): Option<string> {
    var mine := Qualifying(cwd, resolvedCwd, claim, heads);
    if mine == [] || |mine| > 1 then None else Some(mine[0].id)
  }

  /** Head `i` qualifies and no other does. */
  ghost predicate OnlyOne(i: nat, cwd: string, resolvedCwd: Option<string>, claim: LaunchClaim,
                          heads: seq<RolloutHead>) {
    && i < |heads| && Qualifies(heads[i], cwd, resolvedCwd, claim)
    && forall j | 0 <= j < |heads| && j != i :: !Qualifies(heads[j], cwd, resolvedCwd, claim)
  }

  lemma {:induction false} NoneQualifies(cwd: string, resolvedCwd: Option<string>, claim: LaunchClaim,
                                         heads: seq<RolloutHead>)
    ensures Qualifying(cwd, resolvedCwd, claim, heads) == []
       <==> forall j | 0 <= j < |heads| :: !Qualifies(heads[j], cwd, resolvedCwd, claim)
  {
    if heads != [] {
      NoneQualifies(cwd, resolvedCwd, claim, heads[1..]);
      assert forall j | 0 < j < |heads| :: heads[j] == heads[1..][j - 1];
      assert forall j | 0 <= j < |heads| - 1 :: heads[1..][j] == heads[j + 1];
    }
  }

  /** A launch gets a rollout exactly when one head, and only one, qualifies. */
  lemma {:induction false} BindsTheOnlyOne(cwd: string, resolvedCwd: Option<string>, claim: LaunchClaim,
                                           heads: seq<RolloutHead>, id: string)
    ensures TheOnlyRolloutOf(cwd, resolvedCwd, claim, heads) == Some(id)
       <==> exists i: nat :: OnlyOne(i, cwd, resolvedCwd, claim, heads) && heads[i].id == id
  {
    if heads != [] {
      var rest := heads[1..];
      if Qualifies(heads[0], cwd, resolvedCwd, claim) {
        NoneQualifies(cwd, resolvedCwd, claim, rest);
        OnlyTheFirst(cwd, resolvedCwd, claim, heads);
      } else {
        BindsTheOnlyOne(cwd, resolvedCwd, claim, rest, id);
        if i: nat :| OnlyOne(i, cwd, resolvedCwd, claim, heads) && heads[i].id == id {
          OnlyOneBelow(i, cwd, resolvedCwd, claim, heads);
        }
        if i: nat :| OnlyOne(i, cwd, resolvedCwd, claim, rest) && rest[i].id == id {
          OnlyOneBelow(i + 1, cwd, resolvedCwd, claim, heads);
        }
      }
    }
  }

  lemma OnlyTheFirst(cwd: string, resolvedCwd: Option<string>, claim: LaunchClaim, heads: seq<RolloutHead>)
    requires heads != [] && Qualifies(heads[0], cwd, resolvedCwd, claim)
    ensures OnlyOne(0, cwd, resolvedCwd, claim, heads)
       <==> forall j | 0 <= j < |heads[1..]| :: !Qualifies(heads[1..][j], cwd, resolvedCwd, claim)
    ensures forall i: nat | OnlyOne(i, cwd, resolvedCwd, claim, heads) :: i == 0
  {
    var rest := heads[1..];
    assert forall j | 0 < j < |heads| :: heads[j] == rest[j - 1];
    assert forall j | 0 <= j < |rest| :: rest[j] == heads[j + 1];
  }

  lemma OnlyOneBelow(i: nat, cwd: string, resolvedCwd: Option<string>, claim: LaunchClaim, heads: seq<RolloutHead>)
    requires 0 < i < |heads| && !Qualifies(heads[0], cwd, resolvedCwd, claim)
    ensures OnlyOne(i, cwd, resolvedCwd, claim, heads) <==> OnlyOne(i - 1, cwd, resolvedCwd, claim, heads[1..])
  {
    var rest := heads[1..];
    assert forall j | 0 < j < |heads| :: heads[j] == rest[j - 1];
    if OnlyOne(i - 1, cwd, resolvedCwd, claim, rest) {
      forall j | 0 <= j < |heads| && j != i ensures !Qualifies(heads[j], cwd, resolvedCwd, claim) {
        assert j > 0 ==> heads[j] == rest[j - 1];
      }
    }
    if OnlyOne(i, cwd, resolvedCwd, claim, heads) {
      forall j | 0 <= j < |rest| && j != i - 1 ensures !Qualifies(rest[j], cwd, resolvedCwd, claim) {
        assert rest[j] == heads[j + 1];
      }
    }
  }

  // ---- one pass over all surfaces ----

  /** A Codex surface as the pass sees it. `resolvedCwd` is its directory with
      links followed, when that can be read. */
  datatype Surface = Surface(
    cwd: string,
    resolvedCwd: Option<string>,
    launchedAtSecs: Option<i64>,
    seenSecs: Option<i64>,
    running: bool,
    sessionId: Option<string>,
    inputSentSecs: Option<i64>
  )

  /** The span in which `other` may have created files, when it can have any. */
  function SpanOf(other: Surface): Option<RivalSpan> {
    var from :- if other.launchedAtSecs.Some? then other.launchedAtSecs
                else if other.running then Some(0) else None;
    var seen := if other.seenSecs.Some? then other.seenSecs else other.launchedAtSecs;
    Some(RivalSpan(from as int,
                   if other.running || seen == None then I64_MAX else seen.value as int + RIVAL_GRACE_SECS))
  }

  predicate IsRival(surfaces: seq<Surface>, i: nat, j: nat)
    requires i < |surfaces| && j < |surfaces|
  {
    j != i && surfaces[j].sessionId == None && CwdMatches(surfaces[j].cwd, surfaces[i].cwd)
  }

  function RivalsOf(surfaces: seq<Surface>, i: nat, upTo: nat): (spans: seq<RivalSpan>)
    requires i < |surfaces| && upTo <= |surfaces|
    ensures forall j: nat | j < upTo && IsRival(surfaces, i, j) && SpanOf(surfaces[j]).Some? ::
              SpanOf(surfaces[j]).value in spans
    ensures forall s | s in spans ::
              exists j: nat :: j < upTo && IsRival(surfaces, i, j) && SpanOf(surfaces[j]) == Some(s)
  {
    if upTo == 0 then []
    else
      RivalsOf(surfaces, i, upTo - 1)
      + (if IsRival(surfaces, i, upTo - 1) && SpanOf(surfaces[upTo - 1]).Some?
         then [SpanOf(surfaces[upTo - 1]).value] else [])
  }

  /** The claim the pass makes for a surface nothing named a session for. */
  function ClaimOf(surfaces: seq<Surface>, i: nat): Option<LaunchClaim>
    requires i < |surfaces|
  {
    var me := surfaces[i];
    if me.sessionId.Some? then None
    else
      var launched :- me.launchedAtSecs;
      Some(LaunchClaim(launched, RivalsOf(surfaces, i, |surfaces|), me.inputSentSecs,
                       set s | s in surfaces && s.sessionId.Some? :: s.sessionId.value))
  }

  /** The session a pass proposes for surface `i`; every surface is judged on the
      same heads and the same sessions already taken. */
  function Bound(surfaces: seq<Surface>, heads: seq<RolloutHead>, i: nat): Option<string>
    requires i < |surfaces|
  {
    if !surfaces[i].running then None
    else
      var claim :- ClaimOf(surfaces, i);
      TheOnlyRolloutOf(surfaces[i].cwd, surfaces[i].resolvedCwd, claim, heads)
  }

  /** `other` may have created a file at `t`: it is running and was launched by
      then, at any time when nobody noted it; or it is closed, was launched by then
      and was last seen no more than four seconds before. */
  predicate AliveAt(other: Surface, t: i64) {
    if other.running then (if other.launchedAtSecs.Some? then other.launchedAtSecs.value else 0) <= t
    else
      && other.launchedAtSecs.Some? && other.launchedAtSecs.value <= t
      && t as int <= (if other.seenSecs.Some? then other.seenSecs.value else other.launchedAtSecs.value) as int + 4
  }

  /** The head names the surface's directory, as typed or with links followed; its
      session was created after the launch and its file first written no more than
      five seconds after the last input; no surface holds it; and no other unbound
      surface that spells the directory alike may have created it. */
  predicate CouldBeOf(surfaces: seq<Surface>, i: nat, h: RolloutHead)
    requires i < |surfaces|
  {
    var me := surfaces[i];
    && (CwdMatches(h.cwd, me.cwd) || (me.resolvedCwd.Some? && CwdMatches(h.cwd, me.resolvedCwd.value)))
    && me.launchedAtSecs.Some? && me.launchedAtSecs.value <= h.createdSecs
    && me.inputSentSecs.Some? && h.writtenSecs as int <= me.inputSentSecs.value as int + 5
    && forall j | 0 <= j < |surfaces| ::
         && surfaces[j].sessionId != Some(h.id)
         && (j != i && surfaces[j].sessionId == None && CwdMatches(surfaces[j].cwd, me.cwd) ==>
               !AliveAt(surfaces[j], h.createdSecs))
  }

  lemma QualifiesIsCouldBe(surfaces: seq<Surface>, i: nat, h: RolloutHead)
    requires i < |surfaces| && ClaimOf(surfaces, i).Some?
    ensures Qualifies(h, surfaces[i].cwd, surfaces[i].resolvedCwd, ClaimOf(surfaces, i).value) <==> CouldBeOf(surfaces, i, h)
  {
    var claim := ClaimOf(surfaces, i).value;
    forall j: nat | j < |surfaces| && IsRival(surfaces, i, j)
      ensures AliveAt(surfaces[j], h.createdSecs)
         <==> SpanOf(surfaces[j]).Some? && SpanOf(surfaces[j]).value in claim.rivals
              && SpanOf(surfaces[j]).value.fromSecs <= h.createdSecs as int <= SpanOf(surfaces[j]).value.untilSecs
    {
    }
    assert h.id in claim.taken <==> exists j :: 0 <= j < |surfaces| && surfaces[j].sessionId == Some(h.id) by {
      if j :| 0 <= j < |surfaces| && surfaces[j].sessionId == Some(h.id) {
        assert surfaces[j] in surfaces;
      }
    }
  }

  /** A pass proposes a rollout for a surface exactly when the surface is running,
      was launched and has no session, and this rollout, and no other that was read,
      could be its own. */
  lemma PassProposes(surfaces: seq<Surface>, heads: seq<RolloutHead>, i: nat, id: string)
    requires i < |surfaces|
    ensures Bound(surfaces, heads, i) == Some(id)
       <==> && surfaces[i].running && surfaces[i].sessionId == None && surfaces[i].launchedAtSecs.Some?
            && exists k: nat ::
                 && k < |heads| && heads[k].id == id && CouldBeOf(surfaces, i, heads[k])
                 && forall l | 0 <= l < |heads| && l != k :: !CouldBeOf(surfaces, i, heads[l])
  {
    if ClaimOf(surfaces, i).Some? {
      var me, claim := surfaces[i], ClaimOf(surfaces, i).value;
      forall k | 0 <= k < |heads|
        ensures Qualifies(heads[k], me.cwd, me.resolvedCwd, claim) <==> CouldBeOf(surfaces, i, heads[k])
      {
        QualifiesIsCouldBe(surfaces, i, heads[k]);
      }
      BindsTheOnlyOne(me.cwd, me.resolvedCwd, claim, heads, id);
      if k: nat :| k < |heads| && heads[k].id == id && CouldBeOf(surfaces, i, heads[k])
                   && forall l | 0 <= l < |heads| && l != k :: !CouldBeOf(surfaces, i, heads[l]) {
        assert OnlyOne(k, me.cwd, me.resolvedCwd, claim, heads);
      }
    }
  }

  /** A surface is proposed a rollout only from before every running rival was launched. */
  lemma BoundBeforeRivals(surfaces: seq<Surface>, heads: seq<RolloutHead>, i: nat, j: nat)
    requires i < |surfaces| && j < |surfaces| && i != j
    requires Bound(surfaces, heads, i).Some?
    requires surfaces[j].running && surfaces[j].sessionId == None && CwdMatches(surfaces[i].cwd, surfaces[j].cwd)
    ensures surfaces[j].launchedAtSecs.Some? ==> surfaces[i].launchedAtSecs.value < surfaces[j].launchedAtSecs.value
  {
    var claim := ClaimOf(surfaces, i).value;
    BindsTheOnlyOne(surfaces[i].cwd, surfaces[i].resolvedCwd, claim, heads, Bound(surfaces, heads, i).value);
    var k: nat :| OnlyOne(k, surfaces[i].cwd, surfaces[i].resolvedCwd, claim, heads);
    assert IsRival(surfaces, i, j);
    assert SpanOf(surfaces[j]).value in claim.rivals;
    assert heads[k].createdSecs as int <= I64_MAX;
  }

  /** Of any number of running surfaces that spell one directory alike, at most
      one is proposed a rollout in a pass, the one launched first; and never one
      that some surface holds already. */
  lemma OneOfManyBinds(surfaces: seq<Surface>, heads: seq<RolloutHead>, i: nat, j: nat)
    requires i < |surfaces| && j < |surfaces| && i != j
    requires surfaces[i].running && surfaces[j].running
    requires CwdMatches(surfaces[i].cwd, surfaces[j].cwd)
    requires Bound(surfaces, heads, i).Some?
    ensures Bound(surfaces, heads, j) == None
    ensures surfaces[j].sessionId != Bound(surfaces, heads, i)
    ensures surfaces[j].sessionId == None && surfaces[j].launchedAtSecs.Some? ==>
              surfaces[i].launchedAtSecs.value < surfaces[j].launchedAtSecs.value
  {
    if surfaces[j].sessionId == None {
      BoundBeforeRivals(surfaces, heads, i, j);
      if Bound(surfaces, heads, j).Some? {
        BoundBeforeRivals(surfaces, heads, j, i);
      }
    } else {
      NeverTaken(surfaces, heads, i, j);
    }
  }

  lemma NeverTaken(surfaces: seq<Surface>, heads: seq<RolloutHead>, i: nat, j: nat)
    requires i < |surfaces| && j < |surfaces|
    requires Bound(surfaces, heads, i).Some?
    ensures surfaces[j].sessionId != Bound(surfaces, heads, i)
  {
    var claim := ClaimOf(surfaces, i).value;
    BindsTheOnlyOne(surfaces[i].cwd, surfaces[i].resolvedCwd, claim, heads, Bound(surfaces, heads, i).value);
    assert surfaces[j] in surfaces;
  }

  // ---- the session a hook frame names ----

  const MAX_SESSION_ID_CHARS: nat := 128

  predicate IsAlphanumeric(c: char) { 'a' <= c <= 'z' || 'A' <= c <= 'Z' || '0' <= c <= '9' }

  /** `is_valid_session_id`. */
  predicate IsValidSessionId(id: string) {
    && 0 < |id| <= MAX_SESSION_ID_CHARS && id[0] != '-'
    && forall k | 0 <= k < |id| :: IsAlphanumeric(id[k]) || id[k] == '-' || id[k] == '_'
  }

  datatype SessionBindingUpdate = Nothing | Bind(id: string) | Conflict | Rejected

  /** `session_binding_update`. `forced` is an agent whose id the program mints. */
  function SessionBindingUpdateOf(bound: Option<string>, reported: Option<string>, forced: bool): SessionBindingUpdate {
    var id := if reported.Some? then TrimEnd(TrimStart(reported.value)) else "";
    if id == "" then Nothing
    else if !IsValidSessionId(id) then Rejected
    else if bound == Some(id) then Nothing
    else if bound.Some? && forced then Conflict
    else Bind(id)
  }

  function AfterFrame(bound: Option<string>, reported: Option<string>, forced: bool): Option<string> {
    var update := SessionBindingUpdateOf(bound, reported, forced);
    if update.Bind? then Some(update.id) else bound
  }

  /** A frame takes a bound id away exactly when it names another valid one and
      the agent picks its own ids, as Codex does. */
  lemma FrameTakesOver(bound: string, reported: Option<string>, forced: bool)
    ensures AfterFrame(Some(bound), reported, forced) != Some(bound)
       <==> && !forced && reported.Some?
            && var id := TrimEnd(TrimStart(reported.value)); NamesASession(id) && id != bound
  {
  }

  /** One to 128 letters, digits, dashes and underscores, no dash first. */
  predicate NamesASession(id: string) {
    && 1 <= |id| <= 128 && id[0] != '-'
    && forall k | 0 <= k < |id| ::
         'a' <= id[k] <= 'z' || 'A' <= id[k] <= 'Z' || '0' <= id[k] <= '9' || id[k] in {'-', '_'}
  }

  // ---- over many passes ----

  /** Every surface, and the session each was proposed when it was last read. */
  datatype Rail = Rail(surfaces: seq<Surface>, proposed: seq<Option<string>>)

  /** A pass over some surfaces and one read of the heads, taken as one step; a
      surface that is opened, restored, launched, typed into or closed; or a hook
      frame that names a session for a surface. */
  datatype Event =
    | Pass(visited: set<nat>, heads: seq<RolloutHead>)
    | Put(i: nat, surface: Surface)
    | Frame(i: nat, reported: Option<string>)

  const NO_SURFACES := Rail([], [])

  /** A proposal is adopted when the reading before made the same one. */
  function Adopted(r: Rail, visited: set<nat>, heads: seq<RolloutHead>, i: nat): Surface
    requires i < |r.surfaces| && |r.proposed| == |r.surfaces|
  {
    var proposal := Bound(r.surfaces, heads, i);
    if i in visited && proposal.Some? && r.proposed[i] == proposal then r.surfaces[i].(sessionId := proposal)
    else r.surfaces[i]
  }

  function Proposed(r: Rail, visited: set<nat>, heads: seq<RolloutHead>, i: nat): Option<string>
    requires i < |r.surfaces| && |r.proposed| == |r.surfaces|
  {
    if i in visited then Bound(r.surfaces, heads, i) else r.proposed[i]
  }

  function Placed(r: Rail, i: nat, surface: Surface): (next: Rail)
    requires |r.proposed| == |r.surfaces|
    ensures |next.proposed| == |next.surfaces|
  {
    if i < |r.surfaces| then r.(surfaces := r.surfaces[i := surface])
    else Rail(r.surfaces + [surface], r.proposed + [None])
  }

  /** The surface as the frame leaves it. */
  function Framed(surface: Surface, reported: Option<string>): Surface {
    surface.(sessionId := AfterFrame(surface.sessionId, reported, false))
  }

  function Step(r: Rail, e: Event): (next: Rail)
    requires |r.proposed| == |r.surfaces|
    ensures |next.proposed| == |next.surfaces|
  {
    match e
    case Pass(visited, heads) =>
      Rail(seq(|r.surfaces|, i requires 0 <= i < |r.surfaces| => Adopted(r, visited, heads, i)),
           seq(|r.surfaces|, i requires 0 <= i < |r.surfaces| => Proposed(r, visited, heads, i)))
    case Put(i, surface) => Placed(r, i, surface)
    case Frame(i, reported) => if i < |r.surfaces| then Placed(r, i, Framed(r.surfaces[i], reported)) else r
  }

  function Run(events: seq<Event>): (r: Rail)
    ensures |r.proposed| == |r.surfaces|
  {
    if events == [] then NO_SURFACES else Step(Run(events[..|events| - 1]), events[|events| - 1])
  }

  /** No session is held by two surfaces that spell their directory alike. */
  predicate Exclusive(surfaces: seq<Surface>) {
    forall i, j | 0 <= i < j < |surfaces| && CwdMatches(surfaces[i].cwd, surfaces[j].cwd) ::
      surfaces[i].sessionId.Some? ==> surfaces[i].sessionId != surfaces[j].sessionId
  }

  /** Another surface that spells its directory like `surface` holds its session. */
  predicate HeldBeside(surfaces: seq<Surface>, i: nat, surface: Surface) {
    exists j :: 0 <= j < |surfaces| && j != i && CwdMatches(surfaces[j].cwd, surface.cwd)
                && surface.sessionId.Some? && surfaces[j].sessionId == surface.sessionId
  }

  /** A surface is put with, or a frame names, a session that is held beside it. */
  predicate Clashes(surfaces: seq<Surface>, e: Event) {
    match e
    case Pass(_, _) => false
    case Put(i, surface) => HeldBeside(surfaces, i, surface)
    case Frame(i, reported) => i < |surfaces| && HeldBeside(surfaces, i, Framed(surfaces[i], reported))
  }

  lemma HoldApart(r: Rail, visited: set<nat>, heads: seq<RolloutHead>, i: nat, j: nat)
    requires |r.proposed| == |r.surfaces| && i < |r.surfaces| && j < |r.surfaces| && i != j
    requires CwdMatches(r.surfaces[i].cwd, r.surfaces[j].cwd)
    requires r.surfaces[i].sessionId.Some? ==> r.surfaces[i].sessionId != r.surfaces[j].sessionId
    ensures var a, b := Adopted(r, visited, heads, i), Adopted(r, visited, heads, j);
            a.sessionId.Some? ==> a.sessionId != b.sessionId
  {
    if Bound(r.surfaces, heads, i).Some? && Bound(r.surfaces, heads, j).Some? {
      OneOfManyBinds(r.surfaces, heads, i, j);
    } else if Bound(r.surfaces, heads, i).Some? {
      NeverTaken(r.surfaces, heads, i, j);
    } else if Bound(r.surfaces, heads, j).Some? {
      NeverTaken(r.surfaces, heads, j, i);
    }
  }

  lemma PassKeepsExclusive(r: Rail, visited: set<nat>, heads: seq<RolloutHead>)
    requires |r.proposed| == |r.surfaces| && Exclusive(r.surfaces)
    ensures Exclusive(Step(r, Pass(visited, heads)).surfaces)
  {
    forall i, j | 0 <= i < j < |r.surfaces| && CwdMatches(r.surfaces[i].cwd, r.surfaces[j].cwd)
      ensures var a, b := Adopted(r, visited, heads, i), Adopted(r, visited, heads, j);
              a.sessionId.Some? ==> a.sessionId != b.sessionId
    {
      HoldApart(r, visited, heads, i, j);
    }
  }

  lemma PlacedExclusive(r: Rail, i: nat, surface: Surface)
    requires |r.proposed| == |r.surfaces| && Exclusive(r.surfaces)
    ensures Exclusive(Placed(r, i, surface).surfaces) <==> !HeldBeside(r.surfaces, i, surface)
  {
    var next, at := Placed(r, i, surface).surfaces, if i < |r.surfaces| then i else |r.surfaces|;
    assert next[at] == surface && forall k | 0 <= k < |r.surfaces| && k != at :: next[k] == r.surfaces[k];
    if j :| 0 <= j < |r.surfaces| && j != i && CwdMatches(r.surfaces[j].cwd, surface.cwd)
            && surface.sessionId.Some? && r.surfaces[j].sessionId == surface.sessionId {
      assert next[j] == r.surfaces[j];
    }
  }

  /** A step keeps surfaces of one spelling apart exactly when it does not clash.
      No pass ever clashes, whichever surfaces it visited. */
  lemma StepKeepsExclusive(r: Rail, e: Event)
    requires |r.proposed| == |r.surfaces| && Exclusive(r.surfaces)
    ensures Exclusive(Step(r, e).surfaces) <==> !Clashes(r.surfaces, e)
  {
    match e {
      case Pass(visited, heads) =>
        PassKeepsExclusive(r, visited, heads);
      case Put(i, surface) =>
        PlacedExclusive(r, i, surface);
      case Frame(i, reported) =>
        if i < |r.surfaces| {
          PlacedExclusive(r, i, Framed(r.surfaces[i], reported));
        }
    }
  }

  predicate ExclusiveAt(events: seq<Event>, k: nat)
    requires k <= |events|
  {
    Exclusive(Run(events[..k]).surfaces)
  }

  predicate ClashesAt(events: seq<Event>, k: nat)
    requires k < |events|
  {
    Clashes(Run(events[..k]).surfaces, events[k])
  }

  ghost predicate ExclusiveThroughout(events: seq<Event>) { forall k: nat | k <= |events| :: ExclusiveAt(events, k) }

  ghost predicate NoneClashes(events: seq<Event>) { forall k: nat | k < |events| :: !ClashesAt(events, k) }

  lemma SamePrefix(front: seq<Event>, e: Event, k: nat)
    requires k <= |front|
    ensures ExclusiveAt(front + [e], k) == ExclusiveAt(front, k)
    ensures k < |front| ==> ClashesAt(front + [e], k) == ClashesAt(front, k)
  {
    assert (front + [e])[..k] == front[..k];
  }

  lemma ExclusiveOneMore(front: seq<Event>, e: Event)
    ensures ExclusiveThroughout(front + [e]) <==> ExclusiveThroughout(front) && Exclusive(Run(front + [e]).surfaces)
  {
    var all := front + [e];
    forall k: nat | k <= |front| ensures ExclusiveAt(all, k) == ExclusiveAt(front, k) {
      SamePrefix(front, e, k);
    }
    assert all[..|all|] == all;
    assert ExclusiveAt(all, |all|) == Exclusive(Run(all).surfaces);
  }

  lemma ClashOneMore(front: seq<Event>, e: Event)
    ensures NoneClashes(front + [e]) <==> NoneClashes(front) && !Clashes(Run(front).surfaces, e)
  {
    var all := front + [e];
    forall k: nat | k < |front| ensures ClashesAt(all, k) == ClashesAt(front, k) {
      SamePrefix(front, e, k);
    }
    assert all[..|front|] == front;
    assert ClashesAt(all, |front|) == Clashes(Run(front).surfaces, e);
  }

  /** Over any history of passes, surfaces and frames, surfaces that spell their
      directory alike never hold one session exactly when no surface is put with,
      and no frame names, a session that is held beside it. */
  lemma {:induction false} ExclusiveUnlessClash(events: seq<Event>)
    ensures ExclusiveThroughout(events) <==> NoneClashes(events)
  {
    if events != [] {
      var front, e := events[..|events| - 1], events[|events| - 1];
      assert events == front + [e];
      ExclusiveUnlessClash(front);
      ExclusiveOneMore(front, e);
      ClashOneMore(front, e);
      RunOneMore(front, e);
      if ExclusiveThroughout(front) {
        assert front[..|front|] == front && ExclusiveAt(front, |front|);
        StepKeepsExclusive(Run(front), e);
      }
    } else {
      assert events[..0] == [];
    }
  }

  /** A session is adopted exactly when two readings of the surface in a row propose it. */
  lemma TwoReadingsAgree(r: Rail, first: Event, second: Event, i: nat)
    requires |r.proposed| == |r.surfaces| && i < |r.surfaces|
    requires first.Pass? && second.Pass? && i in first.visited && i in second.visited
    ensures var once, twice := Step(r, first), Step(Step(r, first), second);
            var earlier, later := Bound(r.surfaces, first.heads, i), Bound(once.surfaces, second.heads, i);
            twice.surfaces[i]
            == if later.Some? && earlier == later then once.surfaces[i].(sessionId := later) else once.surfaces[i]
  {
  }

  lemma RunOneMore(events: seq<Event>, e: Event)
    ensures Run(events + [e]) == Step(Run(events), e)
  {
    assert (events + [e])[..|events|] == events;
  }

  /** Two surfaces in one directory, the second with its session: a frame that
      carries the first one's environment names that session for the first. */
  lemma FrameNamesTheWrongSurface()
    ensures var a := Surface("/srv/app", None, Some(1_000), None, true, None, Some(1_004));
            var b := Surface("/srv/app", None, Some(1_002), None, true, Some("01b"), Some(1_003));
            var held := Run([Put(0, a), Put(1, b)] + [Frame(0, Some("01b"))]).surfaces;
            |held| == 2 && held[0].sessionId == held[1].sessionId == Some("01b")
  {
    var a := Surface("/srv/app", None, Some(1_000), None, true, None, Some(1_004));
    var b := Surface("/srv/app", None, Some(1_002), None, true, Some("01b"), Some(1_003));
    TwoOpened(a, b);
    RunOneMore([Put(0, a), Put(1, b)], Frame(0, Some("01b")));
    NamesAnUnboundSurface("01b");
  }

  lemma NamesAnUnboundSurface(id: string)
    requires IsValidSessionId(id)
    ensures AfterFrame(None, Some(id), false) == Some(id)
  {
    assert !IsWhitespace(id[0]) && !IsWhitespace(id[|id| - 1]);
    assert TrimStart(id) == id;
  }

  lemma TwoOpened(a: Surface, b: Surface)
    ensures Run([Put(0, a), Put(1, b)]) == Rail([a, b], [None, None])
  {
    OneOpened(a);
    RunOneMore([Put(0, a)], Put(1, b));
    assert [Put(0, a)] + [Put(1, b)] == [Put(0, a), Put(1, b)];
  }

  lemma OneOpened(a: Surface)
    ensures Run([Put(0, a)]) == Rail([a], [None])
  {
    RunOneMore([], Put(0, a));
    assert [] + [Put(0, a)] == [Put(0, a)];
  }

  // ---- where exclusivity stops ----

  /** The two surfaces can be looking at one directory. */
  predicate NamesMeet(a: Surface, b: Surface) {
    || CwdMatches(a.cwd, b.cwd)
    || (a.resolvedCwd.Some? && CwdMatches(a.resolvedCwd.value, b.cwd))
    || (b.resolvedCwd.Some? && CwdMatches(a.cwd, b.resolvedCwd.value))
    || (a.resolvedCwd.Some? && b.resolvedCwd.Some? && CwdMatches(a.resolvedCwd.value, b.resolvedCwd.value))
  }

  /** A name of a directory both can be looking at. */
  function SharedName(a: Surface, b: Surface): string {
    if a.resolvedCwd.Some?
       && (CwdMatches(a.resolvedCwd.value, b.cwd)
           || (b.resolvedCwd.Some? && CwdMatches(a.resolvedCwd.value, b.resolvedCwd.value)))
    then a.resolvedCwd.value else a.cwd
  }

  predicate Unclaimed(s: Surface) { s.running && s.sessionId == None && s.launchedAtSecs.Some? }

  /** What a reader makes of a file: its id can be one, its stamps are after
      1970, and it is first written when its session is created, or later. */
  predicate Readable(h: RolloutHead) { IsValidSessionId(h.id) && 0 < h.createdSecs <= h.writtenSecs }

  predicate IsFree(id: string, surfaces: seq<Surface>) {
    IsValidSessionId(id) && forall k | 0 <= k < |surfaces| :: surfaces[k].sessionId != Some(id)
  }

  /** One rollout, told by its id, is proposed to both in one pass. */
  ghost predicate Collide(surfaces: seq<Surface>, heads: seq<RolloutHead>, i: nat, j: nat)
    requires i < |surfaces| && j < |surfaces|
  {
    && (forall x, y | 0 <= x < y < |heads| :: heads[x].id != heads[y].id)
    && (forall x | 0 <= x < |heads| :: Readable(heads[x]))
    && Bound(surfaces, heads, i).Some? && Bound(surfaces, heads, i) == Bound(surfaces, heads, j)
  }

  /** A session created at `t`, and its file written then, is within reach of
      surface `i`: it was launched, was typed into shortly before or since, and
      no rival was alive. */
  predicate WithinReach(surfaces: seq<Surface>, i: nat, t: i64)
    requires i < |surfaces| && Unclaimed(surfaces[i])
  {
    && t >= surfaces[i].launchedAtSecs.value
    && surfaces[i].inputSentSecs.Some? && t as int <= surfaces[i].inputSentSecs.value as int + INPUT_TO_FILE_SLACK_SECS
    && !(exists r :: r in RivalsOf(surfaces, i, |surfaces|) && r.fromSecs <= t as int <= r.untilSecs)
  }

  /** Rivals are found by the directory as it was typed, candidates also by the
      directory with links followed. So among any surfaces, one rollout can be
      proposed to two exactly when both can be looking at one directory, at some
      time a session of either was within reach of both, and there is an id that
      no surface holds. */
  lemma WhenTwoCollide(surfaces: seq<Surface>, i: nat, j: nat)
    requires i < |surfaces| && j < |surfaces| && i != j
    requires Unclaimed(surfaces[i]) && Unclaimed(surfaces[j])
    ensures (exists heads :: Collide(surfaces, heads, i, j))
       <==> NamesMeet(surfaces[i], surfaces[j])
            && (exists t: i64 :: t > 0 && WithinReach(surfaces, i, t) && WithinReach(surfaces, j, t))
            && (exists id :: IsFree(id, surfaces))
  {
    if heads :| Collide(surfaces, heads, i, j) {
      var t, id := CollisionNeeds(surfaces, heads, i, j);
    }
    if t: i64 :| t > 0 && WithinReach(surfaces, i, t) && WithinReach(surfaces, j, t) {
      if id :| NamesMeet(surfaces[i], surfaces[j]) && IsFree(id, surfaces) {
        CollisionAt(surfaces, i, j, t, id);
      }
    }
  }

  /** Two surfaces that spell one directory alike are rivals, so no such time exists. */
  lemma AlikeIsNeverInReach(surfaces: seq<Surface>, i: nat, j: nat, t: i64)
    requires i < |surfaces| && j < |surfaces| && i != j
    requires Unclaimed(surfaces[i]) && Unclaimed(surfaces[j]) && CwdMatches(surfaces[i].cwd, surfaces[j].cwd)
    ensures !(WithinReach(surfaces, i, t) && WithinReach(surfaces, j, t))
  {
    assert IsRival(surfaces, i, j);
    assert SpanOf(surfaces[j]).value in RivalsOf(surfaces, i, |surfaces|);
  }

  /** With no third surface near: the directory is spelled in two ways, and both
      surfaces were typed into after the later launch, or at most the slack before it. */
  lemma SpellingDecidesExclusivity(a: Surface, b: Surface)
    requires Unclaimed(a) && Unclaimed(b)
    ensures (exists heads :: Collide([a, b], heads, 0, 1))
       <==> && NamesMeet(a, b) && !CwdMatches(a.cwd, b.cwd)
            && TypedIntoSince(a, LaterLaunch(a, b)) && TypedIntoSince(b, LaterLaunch(a, b))
  {
    var pair, t := [a, b], LaterLaunch(a, b);
    WhenTwoCollide(pair, 0, 1);
    assert IsFree("0", pair);
    if CwdMatches(a.cwd, b.cwd) {
      forall t: i64 ensures !(WithinReach(pair, 0, t) && WithinReach(pair, 1, t)) {
        AlikeIsNeverInReach(pair, 0, 1, t);
      }
    } else {
      NoRivals(a, b);
      if TypedIntoSince(a, t) && TypedIntoSince(b, t) {
        assert WithinReach(pair, 0, t) && WithinReach(pair, 1, t);
      }
    }
  }

  /** The later launch, and no earlier than a stamp can be. */
  function LaterLaunch(a: Surface, b: Surface): i64
    requires Unclaimed(a) && Unclaimed(b)
  {
    var later := if a.launchedAtSecs.value < b.launchedAtSecs.value then b.launchedAtSecs.value else a.launchedAtSecs.value;
    if later < 1 then 1 else later
  }

  predicate TypedIntoSince(s: Surface, t: i64) {
    s.inputSentSecs.Some? && t as int <= s.inputSentSecs.value as int + INPUT_TO_FILE_SLACK_SECS
  }

  lemma NoRivals(a: Surface, b: Surface)
    requires Unclaimed(a) && Unclaimed(b) && !CwdMatches(a.cwd, b.cwd)
    ensures RivalsOf([a, b], 0, 2) == [] && RivalsOf([a, b], 1, 2) == []
  {
    assert RivalsOf([a, b], 0, 1) == [] && RivalsOf([a, b], 1, 1) == [];
  }

  lemma BoundHead(surfaces: seq<Surface>, heads: seq<RolloutHead>, i: nat) returns (k: nat)
    requires i < |surfaces| && Bound(surfaces, heads, i).Some?
    ensures k < |heads| && heads[k].id == Bound(surfaces, heads, i).value
    ensures Qualifies(heads[k], surfaces[i].cwd, surfaces[i].resolvedCwd, ClaimOf(surfaces, i).value)
  {
    var claim, id := ClaimOf(surfaces, i).value, Bound(surfaces, heads, i).value;
    BindsTheOnlyOne(surfaces[i].cwd, surfaces[i].resolvedCwd, claim, heads, id);
    k :| OnlyOne(k, surfaces[i].cwd, surfaces[i].resolvedCwd, claim, heads) && heads[k].id == id;
  }

  lemma CollisionNeeds(surfaces: seq<Surface>, heads: seq<RolloutHead>, i: nat, j: nat)
    returns (t: i64, id: string)
    requires i < |surfaces| && j < |surfaces| && i != j
    requires Unclaimed(surfaces[i]) && Unclaimed(surfaces[j]) && Collide(surfaces, heads, i, j)
    ensures NamesMeet(surfaces[i], surfaces[j])
    ensures t > 0 && WithinReach(surfaces, i, t) && WithinReach(surfaces, j, t) && IsFree(id, surfaces)
  {
    var k := BoundHead(surfaces, heads, i);
    var l := BoundHead(surfaces, heads, j);
    assert k == l;
    t, id := heads[k].createdSecs, heads[k].id;
    forall x: nat | x < |surfaces| ensures surfaces[x].sessionId != Some(id) {
      NeverTaken(surfaces, heads, i, x);
    }
  }

  lemma SingleHeadBinds(surfaces: seq<Surface>, i: nat, head: RolloutHead)
    requires i < |surfaces| && surfaces[i].running && ClaimOf(surfaces, i).Some?
    requires Qualifies(head, surfaces[i].cwd, surfaces[i].resolvedCwd, ClaimOf(surfaces, i).value)
    ensures Bound(surfaces, [head], i) == Some(head.id)
  {
    var claim := ClaimOf(surfaces, i).value;
    assert OnlyOne(0, surfaces[i].cwd, surfaces[i].resolvedCwd, claim, [head]);
    BindsTheOnlyOne(surfaces[i].cwd, surfaces[i].resolvedCwd, claim, [head], head.id);
  }

  lemma CollisionAt(surfaces: seq<Surface>, i: nat, j: nat, t: i64, id: string)
    requires i < |surfaces| && j < |surfaces| && Unclaimed(surfaces[i]) && Unclaimed(surfaces[j])
    requires NamesMeet(surfaces[i], surfaces[j]) && IsFree(id, surfaces)
    requires t > 0 && WithinReach(surfaces, i, t) && WithinReach(surfaces, j, t)
    ensures Collide(surfaces, [RolloutHead(id, SharedName(surfaces[i], surfaces[j]), t, t)], i, j)
  {
    var head := RolloutHead(id, SharedName(surfaces[i], surfaces[j]), t, t);
    SingleHeadBinds(surfaces, i, head);
    SingleHeadBinds(surfaces, j, head);
  }

  lemma {:induction false} SomeDecimalIsUntaken(taken: set<string>, n: nat) returns (k: nat)
    requires |taken| <= n
    ensures k <= n && Decimal(k, 1) !in taken
  {
    k := n;
    if Decimal(n, 1) in taken {
      k := SomeDecimalIsUntaken(taken - {Decimal(n, 1)}, n - 1);
      assert Value(Decimal(k, 1)) == k && Value(Decimal(n, 1)) == n;
    }
  }

  lemma {:induction false} HeldIds(surfaces: seq<Surface>) returns (held: set<string>)
    ensures |held| <= |surfaces|
    ensures forall k | 0 <= k < |surfaces| && surfaces[k].sessionId.Some? :: surfaces[k].sessionId.value in held
  {
    if surfaces == [] {
      held := {};
    } else {
      var last := surfaces[|surfaces| - 1].sessionId;
      held := HeldIds(surfaces[..|surfaces| - 1]);
      held := held + (if last.Some? then {last.value} else {});
    }
  }

  lemma {:induction false} DecimalIsShort(n: nat, width: nat, most: nat)
    requires width <= 1 <= most && n < Pow10(most)
    ensures |Decimal(n, width)| <= most
  {
    if n >= 10 {
      DecimalIsShort(n / 10, 0, most - 1);
    }
  }

  /** There are more ids than any rail has surfaces. */
  lemma SomeIdIsFree(surfaces: seq<Surface>)
    requires |surfaces| < Pow10(MAX_SESSION_ID_CHARS)
    ensures exists id :: IsFree(id, surfaces)
  {
    var held := HeldIds(surfaces);
    var k := SomeDecimalIsUntaken(held, |surfaces|);
    var id := Decimal(k, 1);
    DecimalIsShort(k, 1, MAX_SESSION_ID_CHARS);
    assert IsFree(id, surfaces);
  }

  lemma TwoPasses(earlier: seq<Event>, pass: Event)
    ensures Run(earlier + [pass, pass]) == Step(Step(Run(earlier), pass), pass)
  {
    RunOneMore(earlier, pass);
    RunOneMore(earlier + [pass], pass);
    assert earlier + [pass, pass] == (earlier + [pass]) + [pass];
  }

  /** Two passes over the same heads make a collision stick. */
  lemma CollisionIsAdopted(a: Surface, b: Surface, heads: seq<RolloutHead>)
    requires Unclaimed(a) && Unclaimed(b) && Collide([a, b], heads, 0, 1)
    ensures var pass := Pass({0, 1}, heads);
            var held := Run([Put(0, a), Put(1, b)] + [pass, pass]).surfaces;
            |held| == 2 && held[0].sessionId.Some? && held[0].sessionId == held[1].sessionId
  {
    TwoOpened(a, b);
    TwoPasses([Put(0, a), Put(1, b)], Pass({0, 1}, heads));
    var id := Bound([a, b], heads, 0);
    assert Step(Rail([a, b], [None, None]), Pass({0, 1}, heads)) == Rail([a, b], [id, id]);
  }

  /** A directory and a link to it, each with a running surface that was typed
      into, and the one rollout that both surfaces end up holding. */
  lemma OneRolloutForTwo()
    ensures var a := Surface("/srv/app", Some("/srv/app"), Some(1_000), None, true, None, Some(1_004));
            var b := Surface("/home/me/app", Some("/srv/app"), Some(1_002), None, true, None, Some(1_003));
            var heads := [RolloutHead("0198", "/srv/app", 1_005, 1_005)];
            var pass := Pass({0, 1}, heads);
            var held := Run([Put(0, a), Put(1, b)] + [pass, pass]).surfaces;
            Collide([a, b], heads, 0, 1)
            && |held| == 2 && held[0].sessionId.Some? && held[0].sessionId == held[1].sessionId
  {
    var a := Surface("/srv/app", Some("/srv/app"), Some(1_000), None, true, None, Some(1_004));
    var b := Surface("/home/me/app", Some("/srv/app"), Some(1_002), None, true, None, Some(1_003));
    var head := RolloutHead("0198", "/srv/app", 1_005, 1_005);
    assert a.cwd[|a.cwd| - 1] == b.cwd[|b.cwd| - 1] == 'p';
    assert a.cwd[1] != b.cwd[1];
    NoRivals(a, b);
    SingleHeadBinds([a, b], 0, head);
    SingleHeadBinds([a, b], 1, head);
    CollisionIsAdopted(a, b, [head]);
  }
}
