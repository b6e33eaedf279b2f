/** The relay's room: one machine and its phones, behind a join token. Each
    handler is one atomic step with one reading of the clock, in milliseconds. */
module RelayRoom {
  import opened Prelude
  import opened TokenBucket
  import Ranking

  const MAX_FRAME: nat := 64 * 1024
  const MAX_PHONES: nat := 2
  const DAY_MS := 24 * 60 * 60 * 1000
  const ROOM_TTL_MS := 180 * DAY_MS

  datatype Role = Machine | Phone

  datatype Socket = Socket(id: nat, role: Role, joined: int)

  datatype State = State(
    machine: Option<string>,
    joined: Option<int>,
    alarm: Option<int>,
    sockets: seq<Socket>,
    allowance: map<nat, Bucket>,
    nextId: nat
  )

  const EMPTY := State(None, None, None, [], map[], 0)

  /** What arrives at the room. `hash` is what the room makes of the join token. */
  datatype Event =
    | Fetch(role: Option<Role>, upgrade: bool, token: string, hash: string, claimsAllowed: bool, now: int)
    | Message(id: nat, isText: bool, length: nat, now: int)
    | Closed(id: nat, now: int)
    | Alarm(now: int)
    | Hibernate(now: int)

  function Max(a: int, b: int): int { if a < b then b else a }

  predicate TokenOk(token: string) {
    |token| == 43 && forall c | c in token :: 'A' <= c <= 'Z' || 'a' <= c <= 'z' || '0' <= c <= '9' || c == '_' || c == '-'
  }

  // ---- sockets ----

  function OfRole(sockets: seq<Socket>, role: Role): seq<Socket> {
    if sockets == [] then [] else (if sockets[0].role == role then [sockets[0]] else []) + OfRole(sockets[1..], role)
  }

  function WithoutId(sockets: seq<Socket>, id: nat): seq<Socket> {
    if sockets == [] then [] else (if sockets[0].id == id then [] else [sockets[0]]) + WithoutId(sockets[1..], id)
  }

  function WithoutAll(sockets: seq<Socket>, gone: seq<Socket>): seq<Socket>
    decreases |gone|
  {
    if gone == [] then sockets else WithoutAll(WithoutId(sockets, gone[0].id), gone[1..])
  }

  /** `a.joined - b.joined`: earliest first. */
  function JoinKey(s: Socket): Ranking.Key { Ranking.Key(-s.joined, "") }

  /** The phones a further phone pushes out: the earliest, until one place is free. */
  function PushedOut(sockets: seq<Socket>): seq<Socket> {
    var phones := Ranking.StableSort(JoinKey, OfRole(sockets, Phone));
    phones[..Max(0, |phones| - MAX_PHONES + 1)]
  }

  // ---- the steps ----

  /** The machine may join: its token is well formed and claims the room or fits the claim. */
  predicate MachineAdmitted(s: State, e: Event)
    requires e.Fetch?
  {
    e.role == Some(Machine) && e.upgrade && TokenOk(e.token)
    && (if s.machine == None then e.claimsAllowed else e.hash == s.machine.value)
  }

  predicate PhoneAdmitted(s: State, e: Event)
    requires e.Fetch?
  {
    e.role == Some(Phone) && e.upgrade && s.machine.Some?
  }

  predicate Admitted(s: State, e: Event)
    requires e.Fetch?
  {
    MachineAdmitted(s, e) || PhoneAdmitted(s, e)
  }

  predicate FrameAccepted(s: State, e: Event)
    requires e.Message?
  {
    !e.isText && e.length <= MAX_FRAME && Accepts(AllowanceOf(s, e.id), e.now)
  }

  function AllowanceOf(s: State, id: nat): Option<Bucket> {
    if id in s.allowance then Some(s.allowance[id]) else None
  }

  predicate IsOpen(sockets: seq<Socket>, id: nat) { exists i :: 0 <= i < |sockets| && sockets[i].id == id }

  /** When a room nobody joined again may be forgotten. */
  function Due(s: State): int { (if s.joined.Some? then s.joined.value else 0) + ROOM_TTL_MS }

  /** A new socket takes the place of those that are closed for it. */
  function LetIn(s: State, gone: seq<Socket>, role: Role, now: int): State {
    s.(sockets := WithoutAll(s.sockets, gone) + [Socket(s.nextId, role, now)], nextId := s.nextId + 1)
  }

  /** The room's next state. Events of sockets that are not open do not happen. */
  function Step(s: State, e: Event): State {
    match e
    case Fetch(_, _, _, _, _, _) =>
      if MachineAdmitted(s, e) then
        LetIn(s, OfRole(s.sockets, Machine), Machine, e.now).(
          machine := Some(if s.machine == None then e.hash else s.machine.value),
          joined := Some(e.now), alarm := Some(e.now + ROOM_TTL_MS))
      else if PhoneAdmitted(s, e) then LetIn(s, PushedOut(s.sockets), Phone, e.now)
      else s
    case Message(id, isText, length, now) =>
      if !IsOpen(s.sockets, id) then s
      else if isText || length > MAX_FRAME then s.(sockets := WithoutId(s.sockets, id))
      else
        s.(allowance := s.allowance[id := Spent(AllowanceOf(s, id), now)],
           sockets := if Accepts(AllowanceOf(s, id), now) then s.sockets else WithoutId(s.sockets, id))
    case Closed(id, _) => s.(sockets := WithoutId(s.sockets, id))
    case Alarm(now) =>
      var due := Due(s);
      if OfRole(s.sockets, Machine) != [] || now < due then s.(alarm := Some(Max(due, now + DAY_MS)))
      else s.(machine := None, joined := None, alarm := None, sockets := [])
    case Hibernate(_) => s.(allowance := map[])
  }

  /** The room hashes the tokens it is shown with `digest`. */
  predicate Digested(digest: string -> string, e: Event) { e.Fetch? ==> e.hash == digest(e.token) }

  /** The `Room` object. */
  class Room {
    /** The program's is SHA-256. */
    const digest: string -> string
    var machine: Option<string>
    var joined: Option<int>
    var alarm: Option<int>
    var sockets: seq<Socket>
    var allowance: map<nat, Bucket>
    var nextId: nat

    function Now(): State
      reads this
    {
      State(machine, joined, alarm, sockets, allowance, nextId)
    }

    constructor (digest: string -> string)
      ensures Now() == EMPTY && this.digest == digest
    {
      this.digest := digest;
      machine, joined, alarm, sockets, allowance, nextId := None, None, None, [], map[], 0;
    }

    method CloseSocket(id: nat)
      modifies `sockets
      ensures sockets == WithoutId(old(sockets), id)
    {
      sockets := WithoutId(sockets, id);
    }

    method CloseAll(gone: seq<Socket>)
      modifies `sockets
      ensures sockets == WithoutAll(old(sockets), gone)
    {
      var left := gone;
      while left != []
        invariant WithoutAll(sockets, left) == WithoutAll(old(sockets), gone)
        decreases |left|
      {
        CloseSocket(left[0].id);
        left := left[1..];
      }
    }

    /** `fetch`; the status is the response's. */
    method Join(role: Option<Role>, upgrade: bool, token: string, claimsAllowed: bool, now: int) returns (status: nat)
      modifies this
      ensures Now() == Step(old(Now()), Fetch(role, upgrade, token, digest(token), claimsAllowed, now))
      ensures (status == 101) == Admitted(old(Now()), Fetch(role, upgrade, token, digest(token), claimsAllowed, now))
    {
      if role == None {
        return 400;
      }
      if !upgrade {
        return 426;
      }
      var claimed := machine;
      if role.value == Machine {
        if !TokenOk(token) {
          return 401;
        }
        var hash := digest(token);
        if claimed == None {
          if !claimsAllowed {
            return 429;
          }
          machine := Some(hash);
        } else if hash != claimed.value {
          return 403;
        }
        joined := Some(now);
        alarm := Some(now + ROOM_TTL_MS);
        CloseAll(OfRole(sockets, Machine));
      } else {
        if claimed == None {
          return 404;
        }
        CloseAll(PushedOut(sockets));
      }
      sockets := sockets + [Socket(nextId, role.value, now)];
      nextId := nextId + 1;
      return 101;
    }

    /** `spend`. */
    method Spend(id: nat, now: int) returns (ok: bool)
      modifies `allowance
      ensures allowance == old(allowance)[id := Spent(AllowanceOf(old(Now()), id), now)]
      ensures ok == Accepts(AllowanceOf(old(Now()), id), now)
    {
      var was := if id in allowance then allowance[id] else Bucket(FRAME_BURST, now);
      var left := MinReal(FRAME_BURST, was.left + Earned(was.at, now));
      if left < 1.0 {
        allowance := allowance[id := Bucket(left, now)];
        return false;
      }
      allowance := allowance[id := Bucket(left - 1.0, now)];
      return true;
    }

    /** `webSocketMessage`: who the frame is sent on to. */
    method Receive(ws: Socket, isText: bool, length: nat, now: int) returns (sentTo: seq<Socket>)
      requires ws in sockets
      modifies this
      ensures Now() == Step(old(Now()), Message(ws.id, isText, length, now))
      ensures sentTo == if FrameAccepted(old(Now()), Message(ws.id, isText, length, now))
                        then OfRole(sockets, if ws.role == Machine then Phone else Machine) else []
      ensures forall x :: x in sentTo
                <==> FrameAccepted(old(Now()), Message(ws.id, isText, length, now)) && x in sockets && x.role != ws.role
    {
      sentTo := [];
      if isText {
        CloseSocket(ws.id);
        return;
      }
      if length > MAX_FRAME {
        CloseSocket(ws.id);
        return;
      }
      var ok := Spend(ws.id, now);
      if !ok {
        CloseSocket(ws.id);
        return;
      }
      var peer := if ws.role == Machine then Phone else Machine;
      OfRoleIs(sockets, peer);
      sentTo := OfRole(sockets, peer);
    }

    /** `webSocketClose`. */
    method SocketClosed(id: nat, now: int)
      modifies this
      ensures Now() == Step(old(Now()), Closed(id, now))
    {
      CloseSocket(id);
    }

    /** `alarm`. */
    method AlarmFired(now: int)
      modifies this
      ensures Now() == Step(old(Now()), Alarm(now))
    {
      var due := (if joined.Some? then joined.value else 0) + ROOM_TTL_MS;
      if |OfRole(sockets, Machine)| > 0 || now < due {
        alarm := Some(Max(due, now + DAY_MS));
        return;
      }
      NothingLeft(sockets, sockets);
      CloseAll(sockets);
      machine, joined, alarm := None, None, None;
    }

    /** The object is evicted and comes back: storage and sockets stay. */
    method Evicted(now: int)
      modifies this
      ensures Now() == Step(old(Now()), Hibernate(now))
    {
      allowance := map[];
    }
  }

  // ---- what closing sockets leaves ----

  lemma {:induction false} WithoutIdIs(sockets: seq<Socket>, id: nat)
    ensures forall x :: x in WithoutId(sockets, id) <==> x in sockets && x.id != id
  {
    if sockets != [] {
      WithoutIdIs(sockets[1..], id);
      assert sockets == [sockets[0]] + sockets[1..];
    }
  }

  lemma {:induction false} WithoutAllIs(sockets: seq<Socket>, gone: seq<Socket>)
    ensures forall x :: x in WithoutAll(sockets, gone) <==> x in sockets && forall g | g in gone :: g.id != x.id
    decreases |gone|
  {
    if gone != [] {
      WithoutIdIs(sockets, gone[0].id);
      WithoutAllIs(WithoutId(sockets, gone[0].id), gone[1..]);
      assert gone == [gone[0]] + gone[1..];
    }
  }

  lemma NothingLeft(sockets: seq<Socket>, gone: seq<Socket>)
    requires forall x | x in sockets :: x in gone
    ensures WithoutAll(sockets, gone) == []
  {
    var left := WithoutAll(sockets, gone);
    assert left == [] || left[0] in left;
    WithoutAllIs(sockets, gone);
  }

  lemma {:induction false} OfRoleIs(sockets: seq<Socket>, role: Role)
    ensures forall x :: x in OfRole(sockets, role) <==> x in sockets && x.role == role
  {
    if sockets != [] {
      OfRoleIs(sockets[1..], role);
      assert sockets == [sockets[0]] + sockets[1..];
    }
  }

  lemma OfRoleCons(x: Socket, rest: seq<Socket>, role: Role)
    ensures OfRole([x] + rest, role) == (if x.role == role then [x] else []) + OfRole(rest, role)
  {
    assert ([x] + rest)[1..] == rest;
  }

  lemma WithoutIdCons(x: Socket, rest: seq<Socket>, id: nat)
    ensures WithoutId([x] + rest, id) == (if x.id == id then [] else [x]) + WithoutId(rest, id)
  {
    assert ([x] + rest)[1..] == rest;
  }

  lemma {:induction false} OfRoleAppend(sockets: seq<Socket>, x: Socket, role: Role)
    ensures OfRole(sockets + [x], role) == OfRole(sockets, role) + (if x.role == role then [x] else [])
  {
    if sockets == [] {
      OfRoleCons(x, [], role);
      assert sockets + [x] == [x] + [];
    } else {
      var first, rest := sockets[0], sockets[1..];
      var kept := if first.role == role then [first] else [];
      OfRoleAppend(rest, x, role);
      assert sockets + [x] == [first] + (rest + [x]);
      assert OfRole(sockets + [x], role) == kept + OfRole(rest + [x], role) by {
        OfRoleCons(first, rest + [x], role);
      }
      Regroup(kept, OfRole(rest, role), if x.role == role then [x] else []);
    }
  }

  lemma {:induction false} OfRoleWithoutId(sockets: seq<Socket>, id: nat, role: Role)
    ensures OfRole(WithoutId(sockets, id), role) == WithoutId(OfRole(sockets, role), id)
  {
    if sockets != [] {
      var first, rest := sockets[0], sockets[1..];
      OfRoleWithoutId(rest, id, role);
      OfRoleCons(first, WithoutId(rest, id), role);
      WithoutIdCons(first, OfRole(rest, role), id);
      assert first.id == id ==> [] + WithoutId(rest, id) == WithoutId(rest, id);
      assert first.role != role ==> [] + OfRole(rest, role) == OfRole(rest, role);
    }
  }

  lemma {:induction false} OfRoleWithoutAll(sockets: seq<Socket>, gone: seq<Socket>, role: Role)
    ensures OfRole(WithoutAll(sockets, gone), role) == WithoutAll(OfRole(sockets, role), gone)
    decreases |gone|
  {
    if gone != [] {
      OfRoleWithoutId(sockets, gone[0].id, role);
      OfRoleWithoutAll(WithoutId(sockets, gone[0].id), gone[1..], role);
    }
  }

  /** Every socket is told by its id. */
  predicate DistinctIds(sockets: seq<Socket>) {
    forall i, j | 0 <= i < j < |sockets| :: sockets[i].id != sockets[j].id
  }

  lemma {:induction false} WithoutIdCount(sockets: seq<Socket>, id: nat)
    ensures DistinctIds(sockets) ==>
              DistinctIds(WithoutId(sockets, id))
              && |WithoutId(sockets, id)| == if IsOpen(sockets, id) then |sockets| - 1 else |sockets|
    ensures |WithoutId(sockets, id)| <= |sockets|
  {
    if sockets != [] {
      var rest := sockets[1..];
      WithoutIdCount(rest, id);
      WithoutIdIs(rest, id);
      assert IsOpen(sockets, id) <==> sockets[0].id == id || IsOpen(rest, id) by {
        if IsOpen(rest, id) {
          var i :| 0 <= i < |rest| && rest[i].id == id;
          assert sockets[i + 1].id == id;
        }
        if i :| 0 < i < |sockets| && sockets[i].id == id {
          assert rest[i - 1].id == id;
        }
      }
      if DistinctIds(sockets) {
        assert forall i | 0 <= i < |rest| :: rest[i] == sockets[i + 1] && rest[i].id != sockets[0].id;
        var left := WithoutId(rest, id);
        forall i | 0 <= i < |left| ensures left[i].id != sockets[0].id {
          assert left[i] in left && left[i] in rest;
        }
      }
    }
  }

  lemma {:induction false} WithoutAllCount(sockets: seq<Socket>, gone: seq<Socket>)
    requires DistinctIds(sockets) && DistinctIds(gone)
    requires forall g | g in gone :: g in sockets
    ensures DistinctIds(WithoutAll(sockets, gone)) && |WithoutAll(sockets, gone)| == |sockets| - |gone|
    decreases |gone|
  {
    if gone != [] {
      var rest := gone[1..];
      assert gone[0] in sockets;
      WithoutIdCount(sockets, gone[0].id);
      WithoutIdIs(sockets, gone[0].id);
      forall g | g in rest ensures g in WithoutId(sockets, gone[0].id) {
        var i :| 0 <= i < |rest| && rest[i] == g;
        assert gone[i + 1] == g;
      }
      WithoutAllCount(WithoutId(sockets, gone[0].id), rest);
    }
  }

  // ---- one step ----

  /** What holds of a room at rest after every step: one machine and two phones at
      most, no socket without a claim, and with a claim an alarm that is no earlier
      than 180 days after the last join. */
  ghost predicate Safe(s: State) {
    && |OfRole(s.sockets, Machine)| <= 1 && |OfRole(s.sockets, Phone)| <= 2
    && (s.sockets != [] ==> s.machine.Some?)
    && (s.machine.Some? <==> s.joined.Some?)
    && (s.machine.Some? ==> s.alarm.Some? && s.alarm.value >= s.joined.value + 15_552_000_000)
    && DistinctIds(s.sockets) && forall x | x in s.sockets :: x.id < s.nextId
  }

  /** `gone` are the phones to push out: all but one, and none that joined later than the one that stays. */
  ghost predicate Oldest(gone: seq<Socket>, phones: seq<Socket>) {
    && DistinctIds(gone) && |gone| == Max(0, |phones| - 1)
    && (forall g | g in gone :: g in phones)
    && forall g, x | g in gone && x in phones && x !in gone :: g.joined <= x.joined
  }

  lemma PushedOutAreOldest(sockets: seq<Socket>)
    requires DistinctIds(sockets)
    ensures Oldest(PushedOut(sockets), OfRole(sockets, Phone))
  {
    var phones := OfRole(sockets, Phone);
    Ranking.SortKeepsRows(JoinKey, phones);
    SortedPhonesDistinct(sockets);
    forall x | x in phones ensures x in Ranking.StableSort(JoinKey, phones) {
      SortKeepsAll(phones, x);
    }
    Ranking.StableSortIsStable(JoinKey, phones);
    FirstAreOldest(phones, Ranking.StableSort(JoinKey, phones));
  }

  lemma FirstAreOldest(phones: seq<Socket>, sorted: seq<Socket>)
    requires Ranking.Ranked(JoinKey, sorted) && DistinctIds(sorted) && |sorted| == |phones|
    requires forall x :: x in sorted <==> x in phones
    ensures Oldest(sorted[..Max(0, |phones| - 1)], phones)
  {
    var k := Max(0, |phones| - 1);
    var gone := sorted[..k];
    forall g, x | g in gone && x in phones && x !in gone ensures g.joined <= x.joined {
      var a :| 0 <= a < k && gone[a] == g;
      var b :| 0 <= b < |sorted| && sorted[b] == x;
      assert forall c | 0 <= c < k :: gone[c] == sorted[c];
      assert b >= k;
      assert !Ranking.Ahead(JoinKey(sorted[b]), JoinKey(sorted[a]));
    }
  }

  lemma {:induction false} SortKeepsAll(phones: seq<Socket>, x: Socket)
    requires x in phones
    ensures x in Ranking.StableSort(JoinKey, phones)
  {
    var front, last := phones[..|phones| - 1], phones[|phones| - 1];
    if x in front {
      SortKeepsAll(front, x);
    }
    assert phones == front + [last];
    PlaceHolds(Ranking.StableSort(JoinKey, front), last, x);
  }

  lemma {:induction false} PlaceHolds(s: seq<Socket>, last: Socket, x: Socket)
    requires x in s || x == last
    ensures x in Ranking.Place(JoinKey, s, last)
  {
    if s != [] && !Ranking.Ahead(JoinKey(last), JoinKey(s[0])) {
      assert s == [s[0]] + s[1..];
      if x in s[1..] || x == last {
        PlaceHolds(s[1..], last, x);
      }
    }
  }

  lemma {:induction false} OfRoleDistinct(sockets: seq<Socket>, role: Role)
    requires DistinctIds(sockets)
    ensures DistinctIds(OfRole(sockets, role))
  {
    if sockets != [] {
      var rest, kept := sockets[1..], OfRole(sockets[1..], role);
      assert forall i | 0 <= i < |rest| :: rest[i] == sockets[i + 1] && rest[i].id != sockets[0].id;
      OfRoleDistinct(rest, role);
      OfRoleIs(rest, role);
      forall i | 0 <= i < |kept| ensures kept[i].id != sockets[0].id {
        assert kept[i] in kept && kept[i] in rest;
      }
    }
  }

  lemma {:induction false} PlaceDistinct(s: seq<Socket>, x: Socket)
    requires DistinctIds(s) && forall y | y in s :: y.id != x.id
    ensures DistinctIds(Ranking.Place(JoinKey, s, x))
    ensures forall y | y in Ranking.Place(JoinKey, s, x) :: y == x || y in s
  {
    if s != [] && !Ranking.Ahead(JoinKey(x), JoinKey(s[0])) {
      var rest := s[1..];
      assert forall i | 0 <= i < |rest| :: rest[i] == s[i + 1] && rest[i].id != s[0].id;
      PlaceDistinct(rest, x);
      var placed := Ranking.Place(JoinKey, rest, x);
      assert s[0] in s;
      forall i | 0 <= i < |placed| ensures placed[i].id != s[0].id {
        assert placed[i] in placed;
      }
    }
  }

  lemma {:induction false} SortDistinct(s: seq<Socket>)
    requires DistinctIds(s)
    ensures DistinctIds(Ranking.StableSort(JoinKey, s))
  {
    if s != [] {
      var front := s[..|s| - 1];
      SortDistinct(front);
      Ranking.SortKeepsRows(JoinKey, front);
      PlaceDistinct(Ranking.StableSort(JoinKey, front), s[|s| - 1]);
    }
  }

  lemma SortedPhonesDistinct(sockets: seq<Socket>)
    requires DistinctIds(sockets)
    ensures DistinctIds(Ranking.StableSort(JoinKey, OfRole(sockets, Phone)))
  {
    OfRoleDistinct(sockets, Phone);
    SortDistinct(OfRole(sockets, Phone));
  }

  /** A room never has more than one machine and two phones, and never an open
      socket without a claim; its claim comes with a pending alarm no earlier
      than the last join allows. */
  lemma StepKeepsSafe(s: State, e: Event)
    requires Safe(s)
    ensures Safe(Step(s, e))
  {
    match e {
      case Fetch(_, _, _, _, _, _) =>
        if MachineAdmitted(s, e) {
          MachineJoins(s, e);
        } else if PhoneAdmitted(s, e) {
          PhoneJoins(s, e);
        }
      case Message(id, _, _, _) =>
        CloseKeepsSafe(s, id);
      case Closed(id, _) =>
        CloseKeepsSafe(s, id);
      case Alarm(_) =>
      case Hibernate(_) =>
    }
  }

  lemma CloseKeepsSafe(s: State, id: nat)
    requires Safe(s)
    ensures Safe(s.(sockets := WithoutId(s.sockets, id)))
  {
    WithoutIdIs(s.sockets, id);
    WithoutIdCount(s.sockets, id);
    OfRoleWithoutId(s.sockets, id, Machine);
    OfRoleWithoutId(s.sockets, id, Phone);
    WithoutIdCount(OfRole(s.sockets, Machine), id);
    WithoutIdCount(OfRole(s.sockets, Phone), id);
  }

  /** A machine that is let in replaces the machine that was there, and no phone. */
  lemma MachineJoins(s: State, e: Event)
    requires Safe(s) && e.Fetch? && MachineAdmitted(s, e)
    ensures Safe(Step(s, e))
    ensures OfRole(Step(s, e).sockets, Machine) == [Socket(s.nextId, Machine, e.now)]
    ensures OfRole(Step(s, e).sockets, Phone) == OfRole(s.sockets, Phone)
  {
    MachineTakesPlace(s.sockets, Socket(s.nextId, Machine, e.now));
  }

  lemma MachineTakesPlace(sockets: seq<Socket>, joins: Socket)
    requires DistinctIds(sockets)
    requires joins.role == Machine && forall x | x in sockets :: x.id < joins.id
    ensures var after := WithoutAll(sockets, OfRole(sockets, Machine)) + [joins];
            && DistinctIds(after) && (forall x | x in after :: x.id < joins.id + 1)
            && OfRole(after, Machine) == [joins]
            && OfRole(after, Phone) == OfRole(sockets, Phone)
  {
    var machines := OfRole(sockets, Machine);
    var kept := WithoutAll(sockets, machines);
    WithoutAllIs(sockets, machines);
    OfRoleIs(sockets, Machine);
    OfRoleDistinct(sockets, Machine);
    WithoutAllCount(sockets, machines);
    OfRoleWithoutAll(sockets, machines, Machine);
    OfRoleWithoutAll(sockets, machines, Phone);
    NothingLeft(machines, machines);
    PhonesAreNotMachines(sockets);
    OfRoleAppend(kept, joins, Machine);
    OfRoleAppend(kept, joins, Phone);
    AppendDistinct(kept, joins, joins.id);
  }

  lemma AppendDistinct(kept: seq<Socket>, x: Socket, next: nat)
    requires DistinctIds(kept) && x.id == next && forall y | y in kept :: y.id < next
    ensures DistinctIds(kept + [x]) && forall y | y in kept + [x] :: y.id < next + 1
  {
    assert forall i | 0 <= i < |kept| :: kept[i] in kept;
  }

  lemma PhonesAreNotMachines(sockets: seq<Socket>)
    requires DistinctIds(sockets)
    ensures WithoutAll(OfRole(sockets, Phone), OfRole(sockets, Machine)) == OfRole(sockets, Phone)
  {
    OfRoleIs(sockets, Phone);
    OfRoleIs(sockets, Machine);
    forall p, m | p in OfRole(sockets, Phone) && m in OfRole(sockets, Machine) ensures p.id != m.id {
      SameIdSameSocket(sockets, p, m);
    }
    WithoutStrangers(OfRole(sockets, Phone), OfRole(sockets, Machine));
  }

  lemma SameIdSameSocket(sockets: seq<Socket>, x: Socket, y: Socket)
    requires DistinctIds(sockets) && x in sockets && y in sockets
    ensures x.id == y.id ==> x == y
  {
  }

  lemma {:induction false} WithoutStrangers(sockets: seq<Socket>, gone: seq<Socket>)
    requires forall x, g | x in sockets && g in gone :: x.id != g.id
    ensures WithoutAll(sockets, gone) == sockets
    decreases |gone|
  {
    if gone != [] {
      assert gone[0] in gone;
      WithoutStranger(sockets, gone[0].id);
      assert forall g | g in gone[1..] :: g in gone;
      WithoutStrangers(sockets, gone[1..]);
    }
  }

  lemma {:induction false} WithoutStranger(sockets: seq<Socket>, id: nat)
    requires forall x | x in sockets :: x.id != id
    ensures WithoutId(sockets, id) == sockets
  {
    if sockets != [] {
      assert sockets[0] in sockets;
      WithoutStranger(sockets[1..], id);
    }
  }

  /** Pushing phones out touches no machine, and leaves room for one phone more. */
  lemma PushOut(sockets: seq<Socket>, gone: seq<Socket>)
    requires DistinctIds(sockets) && Oldest(gone, OfRole(sockets, Phone))
    ensures var kept := WithoutAll(sockets, gone);
            && DistinctIds(kept) && (forall x | x in kept :: x in sockets)
            && OfRole(kept, Machine) == OfRole(sockets, Machine)
            && OfRole(kept, Phone) == WithoutAll(OfRole(sockets, Phone), gone)
    ensures |OfRole(WithoutAll(sockets, gone), Phone)| == |OfRole(sockets, Phone)| - |gone|
  {
    OfRoleIs(sockets, Phone);
    WithoutAllCount(sockets, gone);
    WithoutAllIs(sockets, gone);
    OfRoleDistinct(sockets, Phone);
    WithoutAllCount(OfRole(sockets, Phone), gone);
    OfRoleWithoutAll(sockets, gone, Phone);
    MachinesStay(sockets, gone);
  }

  lemma MachinesStay(sockets: seq<Socket>, gone: seq<Socket>)
    requires DistinctIds(sockets) && forall g | g in gone :: g in OfRole(sockets, Phone)
    ensures OfRole(WithoutAll(sockets, gone), Machine) == OfRole(sockets, Machine)
  {
    OfRoleIs(sockets, Phone);
    OfRoleIs(sockets, Machine);
    OfRoleWithoutAll(sockets, gone, Machine);
    forall m, g | m in OfRole(sockets, Machine) && g in gone ensures m.id != g.id {
      SameIdSameSocket(sockets, m, g);
    }
    WithoutStrangers(OfRole(sockets, Machine), gone);
  }

  /** A phone that is let in leaves the machine alone; of two phones, the one
      that joined first is pushed out and the other stays. */
  lemma PhoneJoins(s: State, e: Event)
    requires Safe(s) && e.Fetch? && PhoneAdmitted(s, e)
    ensures Safe(Step(s, e))
    ensures OfRole(Step(s, e).sockets, Machine) == OfRole(s.sockets, Machine)
    ensures PhonesTurnOver(OfRole(s.sockets, Phone), OfRole(Step(s, e).sockets, Phone), Socket(s.nextId, Phone, e.now))
  {
    PushedOutAreOldest(s.sockets);
    PhoneLetIn(s, PushedOut(s.sockets), e.now);
  }

  lemma PhoneLetIn(s: State, gone: seq<Socket>, now: int)
    requires Safe(s) && s.machine.Some? && Oldest(gone, OfRole(s.sockets, Phone))
    ensures var next := LetIn(s, gone, Phone, now);
            && Safe(next)
            && OfRole(next.sockets, Machine) == OfRole(s.sockets, Machine)
            && PhonesTurnOver(OfRole(s.sockets, Phone), OfRole(next.sockets, Phone), Socket(s.nextId, Phone, now))
  {
    PhoneTakesPlace(s.sockets, gone, Socket(s.nextId, Phone, now));
  }

  /** How the phones change when `joins` is let in. */
  ghost predicate PhonesTurnOver(before: seq<Socket>, after: seq<Socket>, joins: Socket) {
    && (|before| < 2 ==> after == before + [joins])
    && (|before| == 2 ==>
          exists out, stays ::
            multiset(before) == multiset{out, stays} && out.joined <= stays.joined && after == [stays, joins])
  }

  lemma PhoneTakesPlace(sockets: seq<Socket>, gone: seq<Socket>, joins: Socket)
    requires DistinctIds(sockets) && Oldest(gone, OfRole(sockets, Phone)) && |OfRole(sockets, Phone)| <= 2
    requires joins.role == Phone && forall x | x in sockets :: x.id < joins.id
    ensures var after := WithoutAll(sockets, gone) + [joins];
            && DistinctIds(after) && (forall x | x in after :: x.id < joins.id + 1)
            && OfRole(after, Machine) == OfRole(sockets, Machine)
            && PhonesTurnOver(OfRole(sockets, Phone), OfRole(after, Phone), joins)
            && |OfRole(after, Phone)| <= 2
  {
    var kept, phones := WithoutAll(sockets, gone), OfRole(sockets, Phone);
    PushOut(sockets, gone);
    OfRoleAppend(kept, joins, Machine);
    OfRoleAppend(kept, joins, Phone);
    AppendDistinct(kept, joins, joins.id);
    assert OfRole(kept, Machine) + [] == OfRole(kept, Machine);
    OfRoleDistinct(sockets, Phone);
    RemainingPhones(phones, gone, joins);
  }

  lemma RemainingPhones(phones: seq<Socket>, gone: seq<Socket>, joins: Socket)
    requires |phones| <= 2 && DistinctIds(phones) && Oldest(gone, phones)
    ensures PhonesTurnOver(phones, WithoutAll(phones, gone) + [joins], joins)
  {
    if |phones| == 2 {
      assert gone[0] in gone;
      TwoPhones(phones, gone);
    } else {
      assert gone == [];
    }
  }

  lemma TwoPhones(phones: seq<Socket>, gone: seq<Socket>)
    requires |phones| == 2 && |gone| == 1 && DistinctIds(phones) && gone[0] in phones
    requires forall g, x | g in gone && x in phones && x !in gone :: g.joined <= x.joined
    ensures exists out, stays ::
              && multiset(phones) == multiset{out, stays} && out.joined <= stays.joined
              && WithoutAll(phones, gone) == [stays]
  {
    var a, b, out := phones[0], phones[1], gone[0];
    assert phones == [a, b] && [a, b][1..] == [b] && [b][1..] == [];
    assert WithoutId([b], out.id) == if b.id == out.id then [] else [b];
    assert WithoutId([a, b], out.id) == (if a.id == out.id then [] else [a]) + WithoutId([b], out.id);
    assert WithoutAll(phones, gone) == WithoutId(phones, out.id) by {
      assert gone[1..] == [];
    }
    var stays := if a == out then b else a;
    assert stays in phones && stays !in gone && out in gone;
    assert multiset(phones) == multiset{out, stays};
  }
}
