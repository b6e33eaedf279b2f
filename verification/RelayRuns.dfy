/** Whole lives of a relay room: what every run keeps, when a room is
    forgotten, and what its sockets may send. */
module RelayRuns {
  import opened Prelude
  import opened TokenBucket
  import opened RelayRoom

  function Run(events: seq<Event>): State {
    if events == [] then EMPTY else Step(Run(events[..|events| - 1]), events[|events| - 1])
  }

  /** Every reachable room is safe. */
  lemma {:induction false} AlwaysSafe(events: seq<Event>)
    ensures Safe(Run(events))
  {
    if events != [] {
      AlwaysSafe(events[..|events| - 1]);
      StepKeepsSafe(Run(events[..|events| - 1]), events[|events| - 1]);
    }
  }

  // ---- the claim ----

  /** One step leaves a claim alone or deletes it, and makes one only for a
      well-formed token with the limiter's leave: that token's digest. */
  lemma ClaimStep(digest: string -> string, s: State, e: Event)
    requires Digested(digest, e)
    ensures s.machine.Some? ==> Step(s, e).machine == s.machine || Step(s, e).machine == None
    ensures s.machine == None && Step(s, e).machine.Some? ==>
              e.Fetch? && e.claimsAllowed && TokenOk(e.token) && Step(s, e).machine == Some(digest(e.token))
  {
  }

  ghost predicate NeverDeleted(earlier: seq<Event>, later: seq<Event>) {
    forall k: nat | k <= |later| :: Run(earlier + later[..k]).machine.Some?
  }

  /** From a claim on, the stored hash never changes until the room is deleted. */
  lemma {:induction false} ClaimStands(earlier: seq<Event>, later: seq<Event>)
    requires NeverDeleted(earlier, later)
    ensures Run(earlier + later).machine == Run(earlier).machine
    decreases |later|
  {
    if later == [] {
      assert earlier + later == earlier;
    } else {
      var front, e := later[..|later| - 1], later[|later| - 1];
      assert forall k: nat | k <= |front| :: front[..k] == later[..k];
      assert NeverDeleted(earlier, front);
      ClaimStands(earlier, front);
      assert later[..|later|] == later && earlier + later == (earlier + front) + [e];
      RunOneMore(earlier + front, e);
      assert Run(earlier + front).machine.Some?;
    }
  }

  ghost predicate Injective(digest: string -> string) {
    forall a, b :: digest(a) == digest(b) ==> a == b
  }

  /** From the event that claims a room until the room is deleted, a machine is
      let in exactly when its token has the digest of the one that claimed it,
      whatever happened in between; so, where the digest tells tokens apart,
      exactly when it presents that very token. */
  lemma OnlyTheClaimingTokenJoins(digest: string -> string, earlier: seq<Event>, claim: Event, later: seq<Event>, e: Event)
    requires Digested(digest, claim) && Digested(digest, e)
    requires Run(earlier).machine == None && claim.Fetch? && MachineAdmitted(Run(earlier), claim)
    requires NeverDeleted(earlier + [claim], later) && e.Fetch?
    ensures MachineAdmitted(Run(earlier + [claim] + later), e)
       <==> e.role == Some(Machine) && e.upgrade && TokenOk(e.token) && digest(e.token) == digest(claim.token)
    ensures Injective(digest) ==>
              (MachineAdmitted(Run(earlier + [claim] + later), e)
               <==> e.role == Some(Machine) && e.upgrade && e.token == claim.token)
  {
    RunOneMore(earlier, claim);
    ClaimStep(digest, Run(earlier), claim);
    ClaimStands(earlier + [claim], later);
  }

  /** A machine socket comes into the room only with a token whose digest is the claim. */
  lemma OnlyTheClaimantJoins(digest: string -> string, events: seq<Event>, e: Event)
    requires Digested(digest, e)
    ensures var before, after := OfRole(Run(events).sockets, Machine), OfRole(Step(Run(events), e).sockets, Machine);
            after != before && after != [] ==> e.Fetch? && Step(Run(events), e).machine == Some(digest(e.token))
  {
    AlwaysSafe(events);
    MachinesAfter(Run(events), e);
  }

  lemma MachinesAfter(s: State, e: Event)
    requires Safe(s)
    ensures MachinesKept(s, Step(s, e)) || (e.Fetch? && MachineAdmitted(s, e))
  {
    match e {
      case Fetch(_, _, _, _, _, _) =>
        if !MachineAdmitted(s, e) && PhoneAdmitted(s, e) {
          PhoneLeavesMachine(s, e);
        }
      case Message(id, _, _, _) =>
        OneMachineOrNone(s.sockets, id);
      case Closed(id, _) =>
        OneMachineOrNone(s.sockets, id);
      case Alarm(_) =>
      case Hibernate(_) =>
    }
  }

  /** The same machine is connected as before, or none. */
  predicate MachinesKept(s: State, next: State) {
    OfRole(next.sockets, Machine) == OfRole(s.sockets, Machine) || OfRole(next.sockets, Machine) == []
  }

  lemma PhoneLeavesMachine(s: State, e: Event)
    requires Safe(s) && e.Fetch? && !MachineAdmitted(s, e) && PhoneAdmitted(s, e)
    ensures OfRole(Step(s, e).sockets, Machine) == OfRole(s.sockets, Machine)
  {
    PhoneJoins(s, e);
  }

  lemma OneMachineOrNone(sockets: seq<Socket>, id: nat)
    requires |OfRole(sockets, Machine)| <= 1
    ensures OfRole(WithoutId(sockets, id), Machine) == OfRole(sockets, Machine)
            || OfRole(WithoutId(sockets, id), Machine) == []
  {
    OfRoleWithoutId(sockets, id, Machine);
    var machines := OfRole(sockets, Machine);
    assert |machines| == 1 ==> machines == [machines[0]] && machines[1..] == [];
  }

  /** The last time a machine was let in. */
  function LastJoin(events: seq<Event>): Option<int> {
    if events == [] then None
    else
      var front, e := events[..|events| - 1], events[|events| - 1];
      if e.Fetch? && MachineAdmitted(Run(front), e) then Some(e.now) else LastJoin(front)
  }

  /** The stored join is the machine's last, which no phone, frame, close or
      kept alarm moves; so a claimed room's alarm stands no earlier than the
      last join allows. */
  lemma {:induction false} JoinedIsTheLastJoin(events: seq<Event>)
    ensures var s := Run(events);
            s.machine.Some? ==>
              s.joined == LastJoin(events) && s.joined.Some?
              && s.alarm.Some? && s.alarm.value >= LastJoin(events).value + 15_552_000_000
  {
    AlwaysSafe(events);
    if events != [] {
      JoinedIsTheLastJoin(events[..|events| - 1]);
    }
  }

  /** A claimed room is deleted by its alarm, exactly when no machine is
      connected and the time since a machine was last let in has run out; then
      nothing of it is left. An alarm that keeps the room comes again no sooner
      than a day later. */
  lemma DeletedExactlyWhenDue(events: seq<Event>, e: Event)
    requires Run(events).machine.Some?
    ensures var s, next := Run(events), Step(Run(events), e);
            && LastJoin(events).Some?
            && (next.machine == None <==>
                  e.Alarm? && OfRole(s.sockets, Machine) == [] && e.now >= LastJoin(events).value + 15_552_000_000)
            && (next.machine == None ==> next.sockets == [] && next.joined == None && next.alarm == None)
            && (next.machine.Some? && e.Alarm? ==> next.alarm.value >= e.now + 86_400_000 && next.sockets == s.sockets)
  {
    AlwaysSafe(events);
    JoinedIsTheLastJoin(events);
  }

  // ---- forgetting ----

  /** The clock never runs back, and an alarm fires at its time, before anything later happens. */
  ghost predicate OnTime(s: State, clock: int, e: Event) {
    && clock <= e.now
    && (if e.Alarm? then s.alarm == Some(e.now) else s.alarm.Some? ==> e.now <= s.alarm.value)
  }

  ghost predicate Timely(events: seq<Event>) {
    events != [] ==>
      var front, last := events[..|events| - 1], events[|events| - 1];
      Timely(front) && OnTime(Run(front), Clock(front, last.now), last)
  }

  /** The time of the last event; `start` before any. */
  function Clock(events: seq<Event>, start: int): int {
    if events == [] then start else events[|events| - 1].now
  }

  /** The alarm of a claimed room stands no later than both 180 days after the
      last join and a day after `clock`. */
  predicate AlarmWithin(s: State, clock: int) {
    s.machine.Some? ==>
      s.alarm.Some? && s.joined.Some? && s.alarm.value <= Max(s.joined.value + 15_552_000_000, clock + 86_400_000)
  }

  lemma AlarmStaysWithin(s: State, clock: int, e: Event)
    requires Safe(s) && AlarmWithin(s, clock) && OnTime(s, clock, e)
    ensures AlarmWithin(Step(s, e), e.now)
  {
  }

  /** The latest a claimed room's alarm can stand. */
  lemma {:induction false} AlarmNotLate(events: seq<Event>)
    requires Timely(events) && events != []
    ensures AlarmWithin(Run(events), Clock(events, 0))
  {
    var front, last := events[..|events| - 1], events[|events| - 1];
    AlwaysSafe(front);
    if front != [] {
      AlarmNotLate(front);
    }
    AlarmStaysWithin(Run(front), Clock(front, last.now), last);
  }

  /** Event `k` of `later` lets a machine in. */
  predicate LetsMachineIn(earlier: seq<Event>, later: seq<Event>, k: nat)
    requires k < |later|
  {
    later[k].Fetch? && MachineAdmitted(Run(earlier + later[..k]), later[k])
  }

  ghost predicate NoMachineJoins(earlier: seq<Event>, later: seq<Event>) {
    forall k: nat | k < |later| :: !LetsMachineIn(earlier, later, k)
  }

  lemma RunOneMore(events: seq<Event>, e: Event)
    ensures Run(events + [e]) == Step(Run(events), e)
    ensures Timely(events + [e]) ==> Timely(events) && OnTime(Run(events), Clock(events, e.now), e)
  {
    assert (events + [e])[..|events|] == events;
  }

  lemma NoMachineJoinsBefore(earlier: seq<Event>, front: seq<Event>, e: Event)
    requires NoMachineJoins(earlier, front + [e])
    ensures NoMachineJoins(earlier, front)
    ensures e.Fetch? ==> !MachineAdmitted(Run(earlier + front), e)
  {
    forall k: nat | k < |front| ensures !LetsMachineIn(earlier, front, k) {
      SamePrefix(earlier, front, e, k);
    }
    assert !LetsMachineIn(earlier, front + [e], |front|);
    assert (front + [e])[..|front|] == front;
  }

  lemma SamePrefix(earlier: seq<Event>, front: seq<Event>, e: Event, k: nat)
    requires k < |front|
    ensures LetsMachineIn(earlier, front, k) == LetsMachineIn(earlier, front + [e], k)
  {
    assert (front + [e])[..k] == front[..k];
  }

  /** Without a machine the claim, its last join and its alarm stand still until
      the alarm fires, and then the room is gone. */
  lemma {:induction false} QuietUntilTheAlarm(earlier: seq<Event>, later: seq<Event>)
    requires Timely(earlier + later) && NoMachineJoins(earlier, later)
    requires OfRole(Run(earlier).sockets, Machine) == []
    ensures Quiet(Run(earlier), Run(earlier + later))
    decreases |later|
  {
    if later == [] {
      assert earlier + later == earlier;
    } else {
      var front, e := later[..|later| - 1], later[|later| - 1];
      assert later == front + [e] && earlier + later == (earlier + front) + [e];
      RunOneMore(earlier + front, e);
      NoMachineJoinsBefore(earlier, front, e);
      QuietUntilTheAlarm(earlier, front);
      AlwaysSafe(earlier + front);
      QuietStep(Run(earlier + front), e);
    }
  }

  /** No machine came, and the room is as it was claimed or gone. */
  ghost predicate Quiet(s: State, next: State) {
    && OfRole(next.sockets, Machine) == []
    && (next.machine.Some? ==> next.machine == s.machine && next.joined == s.joined && next.alarm == s.alarm)
  }

  lemma QuietStep(s: State, e: Event)
    requires Safe(s) && OfRole(s.sockets, Machine) == []
    requires e.Fetch? ==> !MachineAdmitted(s, e)
    requires e.Alarm? ==> s.alarm == Some(e.now)
    ensures Quiet(s, Step(s, e))
  {
    MachinesAfter(s, e);
  }

  /** A room with no machine, and none joining after `earlier`, is forgotten no
      later than both 180 days after its last join and a day from then: past that
      moment a run in which alarms fire on time holds no claim. */
  lemma ForgottenInTime(earlier: seq<Event>, later: seq<Event>, now: int)
    requires earlier != [] && Timely(earlier + later) && NoMachineJoins(earlier, later)
    requires OfRole(Run(earlier).sockets, Machine) == [] && Run(earlier).machine.Some?
    requires Run(earlier + later).alarm.Some? ==> now <= Run(earlier + later).alarm.value
    requires LastJoin(earlier).Some? ==> now > Max(LastJoin(earlier).value + 15_552_000_000, Clock(earlier, 0) + 86_400_000)
    ensures Run(earlier + later).machine == None
  {
    var s, next := Run(earlier), Run(earlier + later);
    assert Quiet(s, next) by {
      QuietUntilTheAlarm(earlier, later);
    }
    assert AlarmWithin(s, Clock(earlier, 0)) by {
      TimelyPrefix(earlier, later);
      AlarmNotLate(earlier);
    }
    assert s.joined == LastJoin(earlier) && s.joined.Some? by {
      JoinedIsTheLastJoin(earlier);
    }
    AlwaysSafe(earlier + later);
    PastTheAlarm(s, next, Clock(earlier, 0), now);
  }

  lemma PastTheAlarm(s: State, next: State, clock: int, now: int)
    requires s.machine.Some? && Safe(next) && AlarmWithin(s, clock) && Quiet(s, next)
    requires next.alarm.Some? ==> now <= next.alarm.value
    requires s.joined.Some? && now > Max(s.joined.value + 15_552_000_000, clock + 86_400_000)
    ensures next.machine == None
  {
  }

  lemma {:induction false} TimelyPrefix(earlier: seq<Event>, later: seq<Event>)
    requires Timely(earlier + later)
    ensures Timely(earlier)
    decreases |later|
  {
    if later == [] {
      assert earlier + later == earlier;
    } else {
      assert (earlier + later)[..|earlier + later| - 1] == earlier + later[..|later| - 1];
      TimelyPrefix(earlier, later[..|later| - 1]);
    }
  }

  // ---- what a socket may send ----

  /** A binary frame of a proper length from the open socket `id`. */
  predicate IsFrame(s: State, e: Event, id: nat) {
    e.Message? && e.id == id && IsOpen(s.sockets, id) && !e.isText && e.length <= MAX_FRAME
  }

  /** The frames socket `id` has sent, each with whether the room hibernated since the one before. */
  function FramesOf(events: seq<Event>, id: nat): seq<Frame> {
    if events == [] then []
    else
      var front, e := events[..|events| - 1], events[|events| - 1];
      if IsFrame(Run(front), e, id) then FramesOf(front, id) + [Frame(e.now, LostSince(front, id))] else FramesOf(front, id)
  }

  /** The room hibernated after the socket's last frame. */
  function LostSince(events: seq<Event>, id: nat): bool {
    if events == [] then false
    else
      var front, e := events[..|events| - 1], events[|events| - 1];
      if e.Hibernate? then true else if IsFrame(Run(front), e, id) then false else LostSince(front, id)
  }

  /** The room's allowance is, socket by socket, the bucket of that socket's own frames. */
  lemma {:induction false} AllowanceIsTheBucket(events: seq<Event>, id: nat)
    ensures AllowanceOf(Run(events), id) == Kept(FramesOf(events, id), LostSince(events, id))
  {
    if events != [] {
      var front, e := events[..|events| - 1], events[|events| - 1];
      AllowanceIsTheBucket(front, id);
      if IsFrame(Run(front), e, id) {
        var frames := FramesOf(front, id);
        assert (frames + [Frame(e.now, LostSince(front, id))])[..|frames|] == frames;
      }
    }
  }

  /** A message closes its sender exactly when it is not sent on, and no other socket. */
  lemma OnlyTheSenderIsClosed(events: seq<Event>, e: Event)
    requires e.Message? && IsOpen(Run(events).sockets, e.id)
    ensures forall x :: x in Step(Run(events), e).sockets
                   <==> x in Run(events).sockets && (x.id != e.id || FrameAccepted(Run(events), e))
  {
    WithoutIdIs(Run(events).sockets, e.id);
  }

  /** Ids are given out once: a socket that has not joined has sent nothing. */
  lemma {:induction false} NoFramesYet(events: seq<Event>, id: nat)
    requires id >= Run(events).nextId
    ensures FramesOf(events, id) == []
  {
    if events != [] {
      var front := events[..|events| - 1];
      AlwaysSafe(front);
      assert !IsOpen(Run(front).sockets, id);
      NoFramesYet(front, id);
    }
  }

  lemma OpenIs(sockets: seq<Socket>, id: nat)
    ensures IsOpen(sockets, id) <==> exists x :: x in sockets && x.id == id
  {
    if x :| x in sockets && x.id == id {
      var i :| 0 <= i < |sockets| && sockets[i] == x;
    }
    if i :| 0 <= i < |sockets| && sockets[i].id == id {
      assert sockets[i] in sockets;
    }
  }

  /** Every socket after a step was there before, or has just joined under the next id. */
  lemma SocketsAfter(s: State, e: Event, x: Socket)
    requires x in Step(s, e).sockets
    ensures x in s.sockets || (e.Fetch? && x.id == s.nextId)
  {
    match e {
      case Fetch(_, _, _, _, _, _) =>
        WithoutAllIs(s.sockets, OfRole(s.sockets, Machine));
        WithoutAllIs(s.sockets, PushedOut(s.sockets));
      case Message(id, _, _, _) =>
        WithoutIdIs(s.sockets, id);
      case Closed(id, _) =>
        WithoutIdIs(s.sockets, id);
      case Alarm(_) =>
      case Hibernate(_) =>
    }
  }

  lemma OpenBefore(s: State, e: Event, id: nat)
    requires IsOpen(Step(s, e).sockets, id)
    ensures IsOpen(s.sockets, id) || (e.Fetch? && id == s.nextId)
  {
    OpenIs(Step(s, e).sockets, id);
    OpenIs(s.sockets, id);
    var x :| x in Step(s, e).sockets && x.id == id;
    SocketsAfter(s, e, x);
  }

  /** In every reachable room an open socket's frames were all sent on: one that
      was not would have closed it, and ids never come back. */
  lemma {:induction false} OpenMeansAllAccepted(events: seq<Event>, id: nat)
    requires IsOpen(Run(events).sockets, id)
    ensures AllAccepted(FramesOf(events, id))
  {
    if events != [] {
      var front, e := events[..|events| - 1], events[|events| - 1];
      var s := Run(front);
      OpenBefore(s, e, id);
      if !IsOpen(s.sockets, id) {
        NoFramesYet(front, id);
      } else {
        OpenMeansAllAccepted(front, id);
        if IsFrame(s, e, id) {
          FrameLeavesSenderOpen(s, e);
          OneMoreAccepted(front, e, id);
        }
      }
    }
  }

  lemma FrameLeavesSenderOpen(s: State, e: Event)
    requires e.Message? && IsFrame(s, e, e.id) && IsOpen(Step(s, e).sockets, e.id)
    ensures FrameAccepted(s, e)
  {
    WithoutIdIs(s.sockets, e.id);
    var left := WithoutId(s.sockets, e.id);
    assert forall i | 0 <= i < |left| :: left[i] in left;
  }

  lemma OneMoreAccepted(front: seq<Event>, e: Event, id: nat)
    requires IsFrame(Run(front), e, id) && AllAccepted(FramesOf(front, id))
    ensures AllAccepted(FramesOf(front + [e], id)) <==> FrameAccepted(Run(front), e)
  {
    var before, frames := FramesOf(front, id), FramesOf(front + [e], id);
    assert (front + [e])[..|front|] == front;
    assert frames == before + [Frame(e.now, LostSince(front, id))] && frames[..|before|] == before;
    AllowanceIsTheBucket(front, id);
    Shorter(frames, |before|);
    assert AllAccepted(frames) <==> AllAccepted(before) && AcceptedAt(frames, |before|);
  }

  /** Whatever else happens in the room, a message from an open socket is sent on
      exactly when it is binary, of no more than 64 KiB, and with all the frames the
      socket has sent within its rate; otherwise the sender is closed. Only the
      clock must not have run back between its frames. */
  lemma FrameAcceptedIsWithinRate(events: seq<Event>, e: Event)
    requires e.Message? && IsOpen(Run(events).sockets, e.id)
    requires InOrder(FramesOf(events, e.id) + [Frame(e.now, LostSince(events, e.id))])
    ensures FrameAccepted(Run(events), e)
       <==> !e.isText && e.length <= 65_536 && WithinRate(FramesOf(events, e.id) + [Frame(e.now, LostSince(events, e.id))])
    ensures !FrameAccepted(Run(events), e) ==> !IsOpen(Step(Run(events), e).sockets, e.id)
  {
    if IsFrame(Run(events), e, e.id) {
      assert (events + [e])[..|events|] == events;
      OpenMeansAllAccepted(events, e.id);
      OneMoreAccepted(events, e, e.id);
      AcceptedIsWithinRate(FramesOf(events + [e], e.id));
    }
    if !FrameAccepted(Run(events), e) {
      OnlyTheSenderIsClosed(events, e);
      OpenIs(Step(Run(events), e).sockets, e.id);
    }
  }

  // ---- who is let in and who leaves ----

  /** 32 bytes in unpadded base64url. */
  predicate IsToken(t: string) {
    && |t| == 43
    && forall i | 0 <= i < 43 ::
         'A' <= t[i] <= 'Z' || 'a' <= t[i] <= 'z' || '0' <= t[i] <= '9' || t[i] in {'_', '-'}
  }

  /** A socket comes into the room exactly for an upgrade by a machine whose token
      is well formed and claims the room or has the claim's digest, or by a phone
      of a claimed room. */
  lemma WhoIsLetIn(digest: string -> string, events: seq<Event>, e: Event)
    requires e.Fetch? && Digested(digest, e)
    ensures var s, next := Run(events), Step(Run(events), e);
            (exists x :: x in next.sockets && x.id == s.nextId)
            <==> e.upgrade
                 && ((e.role == Some(Machine) && IsToken(e.token)
                      && (s.machine == None ==> e.claimsAllowed) && (s.machine.Some? ==> s.machine.value == digest(e.token)))
                     || (e.role == Some(Phone) && s.machine.Some?))
    ensures forall x | x in Step(Run(events), e).sockets && x.id == Run(events).nextId ::
              e.role == Some(x.role) && x.joined == e.now
  {
    var s := Run(events);
    AlwaysSafe(events);
    TokenOkIs(e.token);
    WithoutAllIs(s.sockets, OfRole(s.sockets, Machine));
    WithoutAllIs(s.sockets, PushedOut(s.sockets));
    if Admitted(s, e) {
      var joins := Socket(s.nextId, e.role.value, e.now);
      assert joins in Step(s, e).sockets;
    }
  }

  lemma TokenOkIs(t: string)
    ensures TokenOk(t) <==> IsToken(t)
  {
    assert forall i | 0 <= i < |t| :: t[i] in t;
  }

  /** What makes a socket leave: its own refused message or close; for a machine
      another that is let in; for a phone being pushed out by one; and the alarm
      that forgets the room. */
  predicate Leaves(s: State, e: Event, x: Socket) {
    match e
    case Fetch(_, _, _, _, _, _) =>
      || (MachineAdmitted(s, e) && x.role == Machine)
      || (PhoneAdmitted(s, e) && x in PushedOut(s.sockets))
    case Message(id, _, _, _) => x.id == id && !FrameAccepted(s, e)
    case Closed(id, _) => x.id == id
    case Alarm(now) => OfRole(s.sockets, Machine) == [] && s.joined.Some? && now >= s.joined.value + 15_552_000_000
    case Hibernate(_) => false
  }

  /** A socket leaves for these reasons and no other. */
  lemma WhyASocketLeaves(events: seq<Event>, e: Event, x: Socket)
    requires x in Run(events).sockets
    ensures x !in Step(Run(events), e).sockets <==> Leaves(Run(events), e, x)
  {
    var s := Run(events);
    AlwaysSafe(events);
    match e {
      case Fetch(_, _, _, _, _, _) =>
        OfRoleIs(s.sockets, Machine);
        PushedOutAreOldest(s.sockets);
        OfRoleIs(s.sockets, Phone);
        StaysUnlessGone(s.sockets, OfRole(s.sockets, Machine), x);
        StaysUnlessGone(s.sockets, PushedOut(s.sockets), x);
      case Message(id, _, _, _) =>
        WithoutIdIs(s.sockets, id);
        OpenIs(s.sockets, id);
      case Closed(id, _) =>
        WithoutIdIs(s.sockets, id);
      case Alarm(_) =>
      case Hibernate(_) =>
    }
  }

  lemma StaysUnlessGone(sockets: seq<Socket>, gone: seq<Socket>, x: Socket)
    requires DistinctIds(sockets) && x in sockets && forall g | g in gone :: g in sockets
    ensures x in WithoutAll(sockets, gone) <==> x !in gone
  {
    WithoutAllIs(sockets, gone);
    forall g | g in gone && g.id == x.id ensures g == x {
      SameIdSameSocket(sockets, g, x);
    }
  }

  /** A socket that closes is gone, and nothing else changes. */
  lemma ClosedIsGone(events: seq<Event>, id: nat, now: int)
    ensures var s, next := Run(events), Step(Run(events), Closed(id, now));
            && (forall x :: x in next.sockets <==> x in s.sockets && x.id != id)
            && next == s.(sockets := next.sockets)
  {
    WithoutIdIs(Run(events).sockets, id);
  }
}
