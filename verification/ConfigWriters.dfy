/** Concurrent settings writers on one config file, with a crash possible
    between any two steps. A rename is atomic; writing the temporary file is not. */
module ConfigWriters {
  import opened Prelude
  import opened ConfigUpdates

  /** What is found at a path. Rejected: unreadable, too large, or no regular
      file. Invalid: no JSON, or no object at its root. */
  datatype File = Absent | Rejected | Invalid | Torn | Document(doc: Doc)

  /** Where a writer is: waiting for the lock; holding it; with the document
      loaded; with the temporary file begun or complete; with it renamed; done
      and what it answered; or lost in a crash. */
  datatype Phase =
    | Waiting
    | Holding
    | Loaded(before: Doc)
    | Writing(doc: Doc)
    | Written(doc: Doc)
    | Renamed
    | Done(ok: bool)
    | Crashed

  datatype State = State(
    phases: map<nat, Phase>,
    lock: Option<nat>,
    target: File,
    temp: File,
    /** The writers in the order they took the lock. */
    order: seq<nat>,
    /** The writers whose rename took effect. */
    committed: set<nat>
  )

  datatype Event =
    | Start(w: nat)
    | Acquire(w: nat)
    | Load(w: nat)
    | BeginTemp(w: nat)
    | EndTemp(w: nat)
    | Rename(w: nat)
    | Return(w: nat)
    | Fail(w: nat)
    | Crash

  function Begin(target: File): State { State(map[], None, target, Absent, [], {}) }

  predicate At(s: State, w: nat, phase: Phase) { w in s.phases && s.phases[w] == phase }

  /** A writer gives up: it drops the lock, and its temporary file with it. */
  function GiveUp(s: State, w: nat): State {
    s.(phases := s.phases[w := Done(false)], lock := None, temp := Absent)
  }

  predicate InCriticalSection(p: Phase) { p.Holding? || p.Loaded? || p.Writing? || p.Written? || p.Renamed? }

  /** One step of one writer, or a crash. A step that cannot be taken changes nothing. */
  function Step(apply: (Update, Doc) -> Doc, update: nat -> Update, s: State, e: Event): State {
    match e
    case Start(w) =>
      if w in s.phases then s else s.(phases := s.phases[w := Waiting])
    case Acquire(w) =>
      if At(s, w, Waiting) && s.lock == None then
        s.(phases := s.phases[w := Holding], lock := Some(w), order := s.order + [w])
      else s
    case Load(w) =>
      if !At(s, w, Holding) then s
      else
        (match s.target
         case Absent => s.(phases := s.phases[w := Loaded(map[])])
         case Document(doc) => s.(phases := s.phases[w := Loaded(doc)])
         case _ => GiveUp(s, w))
    case BeginTemp(w) =>
      if w in s.phases && s.phases[w].Loaded? then
        s.(phases := s.phases[w := Writing(apply(update(w), s.phases[w].before))], temp := Torn)
      else s
    case EndTemp(w) =>
      if w in s.phases && s.phases[w].Writing? then
        s.(phases := s.phases[w := Written(s.phases[w].doc)], temp := Document(s.phases[w].doc))
      else s
    case Rename(w) =>
      if w in s.phases && s.phases[w].Written? then
        s.(phases := s.phases[w := Renamed], target := s.temp, temp := Absent, committed := s.committed + {w})
      else s
    case Return(w) =>
      if At(s, w, Renamed) then s.(phases := s.phases[w := Done(true)], lock := None) else s
    case Fail(w) =>
      // The load, the serialization, the write or the rename goes wrong.
      if w in s.phases && InCriticalSection(s.phases[w]) && !s.phases[w].Renamed? then GiveUp(s, w) else s
    case Crash =>
      // The next process starts with a free lock and a temporary path of its own.
      s.(phases := map w | w in s.phases :: if s.phases[w].Done? then s.phases[w] else Crashed,
         lock := None, temp := Absent)
  }

  function Run(apply: (Update, Doc) -> Doc, update: nat -> Update, target: File, events: seq<Event>): State {
    if events == [] then Begin(target)
    else Step(apply, update, Run(apply, update, target, events[..|events| - 1]), events[|events| - 1])
  }

  // ---- the simple form: one update after the other ----

  /** A document a writer may start from: a missing file is an empty object. */
  predicate Writable(f: File) { f.Absent? || f.Document? }

  function DocOf(f: File): Doc { if f.Document? then f.doc else map[] }

  /** The committed updates, applied in lock order. */
  function Folded(apply: (Update, Doc) -> Doc, update: nat -> Update, start: Doc, order: seq<nat>,
                  committed: set<nat>): Doc {
    if order == [] then start
    else
      var last := order[|order| - 1];
      var doc := Folded(apply, update, start, order[..|order| - 1], committed);
      if last in committed then apply(update(last), doc) else doc
  }

  /** The file as it should be. */
  function Expected(apply: (Update, Doc) -> Doc, update: nat -> Update, start: File, order: seq<nat>,
                    committed: set<nat>): File {
    if committed == {} then start else Document(Folded(apply, update, DocOf(start), order, committed))
  }

  ghost predicate Consistent(apply: (Update, Doc) -> Doc, update: nat -> Update, start: File, s: State) {
    && s.target == Expected(apply, update, start, s.order, s.committed)
    && (s.committed != {} ==> Writable(start))
    && (forall w | w in s.phases :: InCriticalSection(s.phases[w]) <==> s.lock == Some(w))
    && (s.lock.Some? ==> s.lock.value in s.phases && s.order != [] && s.order[|s.order| - 1] == s.lock.value)
    && (forall i, j | 0 <= i < j < |s.order| :: s.order[i] != s.order[j])
    && (forall w | w in s.order :: w in s.phases && !s.phases[w].Waiting?)
    && (forall w | w in s.committed :: w in s.order)
    && (forall w | w in s.phases :: PhaseFits(apply, update, s, w))
  }

  ghost predicate PhaseFits(apply: (Update, Doc) -> Doc, update: nat -> Update, s: State, w: nat)
    requires w in s.phases
  {
    match s.phases[w]
    case Waiting => w !in s.committed
    case Holding => w !in s.committed
    case Loaded(before) => w !in s.committed && Writable(s.target) && before == DocOf(s.target)
    case Writing(doc) => w !in s.committed && Writable(s.target) && doc == apply(update(w), DocOf(s.target))
    case Written(doc) =>
      w !in s.committed && Writable(s.target) && doc == apply(update(w), DocOf(s.target)) && s.temp == Document(doc)
    case Renamed => w in s.committed
    case Done(ok) => w in s.committed <==> ok
    case Crashed => true
  }

  // ---- every step keeps it ----

  /** Updates that did not take effect leave the fold alone, and so does the
      order of those that did. */
  lemma {:induction false} FoldedOver(apply: (Update, Doc) -> Doc, update: nat -> Update, start: Doc,
                                      order: seq<nat>, c: set<nat>, d: set<nat>)
    requires forall w | w in order :: w in c <==> w in d
    ensures Folded(apply, update, start, order, c) == Folded(apply, update, start, order, d)
  {
    if order != [] {
      var front := order[..|order| - 1];
      assert forall w | w in front :: w in order;
      assert order[|order| - 1] in order;
      FoldedOver(apply, update, start, front, c, d);
    }
  }

  /** The lock holder's rename brings the file to the fold with its update last. */
  lemma RenameFolds(apply: (Update, Doc) -> Doc, update: nat -> Update, start: File, order: seq<nat>,
                    committed: set<nat>, w: nat)
    requires order != [] && order[|order| - 1] == w && w !in committed
    requires forall i, j | 0 <= i < j < |order| :: order[i] != order[j]
    requires Writable(Expected(apply, update, start, order, committed))
    ensures Expected(apply, update, start, order, committed + {w})
         == Document(apply(update(w), DocOf(Expected(apply, update, start, order, committed))))
  {
    var front := order[..|order| - 1];
    assert forall v | v in front :: v != w;
    FoldedOver(apply, update, DocOf(start), front, committed, committed + {w});
    if committed == {} {
      NothingCommitted(apply, update, DocOf(start), front);
    }
  }

  lemma {:induction false} NothingCommitted(apply: (Update, Doc) -> Doc, update: nat -> Update, start: Doc,
                                            order: seq<nat>)
    ensures Folded(apply, update, start, order, {}) == start
  {
    if order != [] {
      NothingCommitted(apply, update, start, order[..|order| - 1]);
    }
  }

  /** Taking the lock commits nothing. */
  lemma AcquireFolds(apply: (Update, Doc) -> Doc, update: nat -> Update, start: File, order: seq<nat>,
                     committed: set<nat>, w: nat)
    requires w !in committed
    ensures Expected(apply, update, start, order + [w], committed) == Expected(apply, update, start, order, committed)
  {
    assert (order + [w])[..|order|] == order;
  }

  /** The lock holder moves on inside its critical section. */
  lemma HolderMovesOn(apply: (Update, Doc) -> Doc, update: nat -> Update, start: File, s: State, w: nat,
                      phase: Phase, temp: File)
    requires Consistent(apply, update, start, s)
    requires s.lock == Some(w) && w in s.phases && InCriticalSection(phase)
    requires var next := s.(phases := s.phases[w := phase], temp := temp); PhaseFits(apply, update, next, w)
    ensures Consistent(apply, update, start, s.(phases := s.phases[w := phase], temp := temp))
  {
    var next := s.(phases := s.phases[w := phase], temp := temp);
    forall v | v in next.phases ensures PhaseFits(apply, update, next, v) {
      assert PhaseFits(apply, update, s, v);
      assert v != w ==> !InCriticalSection(s.phases[v]);
    }
  }

  lemma HolderEnds(apply: (Update, Doc) -> Doc, update: nat -> Update, start: File, s: State, w: nat, ok: bool,
                   temp: File)
    requires Consistent(apply, update, start, s)
    requires s.lock == Some(w) && w in s.phases && (w in s.committed <==> ok)
    ensures Consistent(apply, update, start, s.(phases := s.phases[w := Done(ok)], lock := None, temp := temp))
  {
    var next := s.(phases := s.phases[w := Done(ok)], lock := None, temp := temp);
    forall v | v in next.phases ensures PhaseFits(apply, update, next, v) {
      assert PhaseFits(apply, update, s, v);
      assert v != w ==> !InCriticalSection(s.phases[v]);
    }
  }

  lemma StartKeeps(apply: (Update, Doc) -> Doc, update: nat -> Update, start: File, s: State, w: nat)
    requires Consistent(apply, update, start, s) && w !in s.phases
    ensures Consistent(apply, update, start, s.(phases := s.phases[w := Waiting]))
  {
    var next := s.(phases := s.phases[w := Waiting]);
    forall v | v in next.phases ensures PhaseFits(apply, update, next, v) {
      assert v != w ==> PhaseFits(apply, update, s, v);
    }
  }

  lemma AcquireKeeps(apply: (Update, Doc) -> Doc, update: nat -> Update, start: File, s: State, w: nat)
    requires Consistent(apply, update, start, s) && At(s, w, Waiting) && s.lock == None
    ensures Consistent(apply, update, start, Step(apply, update, s, Acquire(w)))
  {
    var next := Step(apply, update, s, Acquire(w));
    AcquireFolds(apply, update, start, s.order, s.committed, w);
    forall v | v in next.phases ensures PhaseFits(apply, update, next, v) {
      assert PhaseFits(apply, update, s, v);
    }
    assert w !in s.order;
    forall v | v in next.order ensures v in next.phases && !next.phases[v].Waiting? {
      assert v == w || v in s.order;
    }
  }

  lemma RenameKeeps(apply: (Update, Doc) -> Doc, update: nat -> Update, start: File, s: State, w: nat)
    requires Consistent(apply, update, start, s) && w in s.phases && s.phases[w].Written?
    ensures Consistent(apply, update, start, Step(apply, update, s, Rename(w)))
  {
    var next := Step(apply, update, s, Rename(w));
    assert PhaseFits(apply, update, s, w) && InCriticalSection(s.phases[w]);
    RenameFolds(apply, update, start, s.order, s.committed, w);
    WritableFromStart(apply, update, start, s);
    forall v | v in next.phases ensures PhaseFits(apply, update, next, v) {
      assert PhaseFits(apply, update, s, v);
      assert v != w ==> !InCriticalSection(s.phases[v]);
    }
  }

  lemma WritableFromStart(apply: (Update, Doc) -> Doc, update: nat -> Update, start: File, s: State)
    requires Consistent(apply, update, start, s) && Writable(s.target)
    ensures Writable(start)
  {
  }

  lemma CrashKeeps(apply: (Update, Doc) -> Doc, update: nat -> Update, start: File, s: State)
    requires Consistent(apply, update, start, s)
    ensures Consistent(apply, update, start, Step(apply, update, s, Crash))
  {
    var next := Step(apply, update, s, Crash);
    forall v | v in next.phases ensures PhaseFits(apply, update, next, v) {
      assert PhaseFits(apply, update, s, v);
    }
  }

  lemma StepKeepsConsistent(apply: (Update, Doc) -> Doc, update: nat -> Update, start: File, s: State, e: Event)
    requires Consistent(apply, update, start, s)
    ensures Consistent(apply, update, start, Step(apply, update, s, e))
  {
    if e.Crash? {
      CrashKeeps(apply, update, start, s);
    } else if e.Start? {
      if e.w !in s.phases {
        StartKeeps(apply, update, start, s, e.w);
      }
    } else if e.w in s.phases {
      var w, phase := e.w, s.phases[e.w];
      assert PhaseFits(apply, update, s, w);
      if e.Acquire? && phase == Waiting && s.lock == None {
        AcquireKeeps(apply, update, start, s, w);
      } else if e.Rename? && phase.Written? {
        RenameKeeps(apply, update, start, s, w);
      } else if InCriticalSection(phase) && !e.Acquire? {
        HolderSteps(apply, update, start, s, e);
      }
    }
  }

  lemma HolderSteps(apply: (Update, Doc) -> Doc, update: nat -> Update, start: File, s: State, e: Event)
    requires Consistent(apply, update, start, s)
    requires !e.Crash? && !e.Start? && !e.Acquire? && e.w in s.phases && InCriticalSection(s.phases[e.w])
    requires e.Rename? ==> !s.phases[e.w].Written?
    ensures Consistent(apply, update, start, Step(apply, update, s, e))
  {
    var w, phase := e.w, s.phases[e.w];
    assert PhaseFits(apply, update, s, w);
    match e {
      case Load(_) =>
        if phase == Holding {
          if Writable(s.target) {
            HolderMovesOn(apply, update, start, s, w, Loaded(DocOf(s.target)), s.temp);
          } else {
            HolderEnds(apply, update, start, s, w, false, Absent);
          }
        }
      case BeginTemp(_) =>
        if phase.Loaded? {
          HolderMovesOn(apply, update, start, s, w, Writing(apply(update(w), phase.before)), Torn);
        }
      case EndTemp(_) =>
        if phase.Writing? {
          HolderMovesOn(apply, update, start, s, w, Written(phase.doc), Document(phase.doc));
        }
      case Return(_) =>
        if phase == Renamed {
          HolderEnds(apply, update, start, s, w, true, s.temp);
        }
      case Fail(_) =>
        if !phase.Renamed? {
          HolderEnds(apply, update, start, s, w, false, Absent);
        }
      case Rename(_) =>
    }
  }

  lemma {:induction false} AlwaysConsistent(apply: (Update, Doc) -> Doc, update: nat -> Update, start: File,
                                            events: seq<Event>)
    ensures Consistent(apply, update, start, Run(apply, update, start, events))
  {
    if events != [] {
      AlwaysConsistent(apply, update, start, events[..|events| - 1]);
      StepKeepsConsistent(apply, update, start, Run(apply, update, start, events[..|events| - 1]), events[|events| - 1]);
    }
  }

  // ---- what the user can rely on ----

  /** Over every interleaving, with crashes anywhere: the file is the one the
      writers found, untouched, or a whole document that is the fold of the
      committed updates in lock order. A writer that answered true is in that
      fold, one that answered false is not, and besides the writers that
      answered only one just renamed, or cut off by a crash, can be. */
  lemma NeverTornNeverLost(apply: (Update, Doc) -> Doc, update: nat -> Update, start: File, events: seq<Event>)
    ensures var s := Run(apply, update, start, events);
            && s.target == (if s.committed == {} then start
                            else Document(Folded(apply, update, DocOf(start), s.order, s.committed)))
            && (forall w | At(s, w, Done(true)) :: w in s.committed)
            && (forall w | At(s, w, Done(false)) :: w !in s.committed)
            && (forall w | w in s.committed ::
                  w in s.order && w in s.phases
                  && (At(s, w, Done(true)) || At(s, w, Crashed) || (At(s, w, Renamed) && s.lock == Some(w))))
  {
    var s := Run(apply, update, start, events);
    AlwaysConsistent(apply, update, start, events);
    forall w | w in s.phases ensures PhaseFits(apply, update, s, w) {
    }
  }

  /** A file that cannot be read as an object is never overwritten, and no writer claims it was. */
  lemma UnreadableIsKept(apply: (Update, Doc) -> Doc, update: nat -> Update, start: File, events: seq<Event>)
    requires !Writable(start)
    ensures var s := Run(apply, update, start, events);
            s.target == start && forall w | w in s.phases :: s.phases[w] != Done(true)
  {
    var s := Run(apply, update, start, events);
    AlwaysConsistent(apply, update, start, events);
    forall w | w in s.phases ensures PhaseFits(apply, update, s, w) {
    }
  }

  lemma CommittedStep(apply: (Update, Doc) -> Doc, update: nat -> Update, s: State, e: Event)
    ensures s.committed <= Step(apply, update, s, e).committed
    ensures s.order <= Step(apply, update, s, e).order
    ensures forall w | At(s, w, Done(true)) :: At(Step(apply, update, s, e), w, Done(true))
  {
  }

  /** Whatever comes later, crashes included: a writer that answered true stays
      in the fold, in the place it took the lock. */
  lemma {:induction false} CommittedStays(apply: (Update, Doc) -> Doc, update: nat -> Update, start: File,
                                          earlier: seq<Event>, later: seq<Event>)
    ensures var s, t := Run(apply, update, start, earlier), Run(apply, update, start, earlier + later);
            && s.committed <= t.committed && s.order <= t.order
            && (forall w | At(s, w, Done(true)) :: At(t, w, Done(true)) && w in t.committed && w in t.order)
    decreases |later|
  {
    AlwaysConsistent(apply, update, start, earlier + later);
    if later == [] {
      assert earlier + later == earlier;
    } else {
      var front, e := later[..|later| - 1], later[|later| - 1];
      CommittedStays(apply, update, start, earlier, front);
      assert (earlier + later)[..|earlier + later| - 1] == earlier + front;
      CommittedStep(apply, update, Run(apply, update, start, earlier + front), e);
    }
    forall w | At(Run(apply, update, start, earlier), w, Done(true))
      ensures w in Run(apply, update, start, earlier + later).committed
    {
      assert PhaseFits(apply, update, Run(apply, update, start, earlier + later), w);
    }
  }

  // ---- a write takes effect ----

  /** The steps writer `w` takes once it has the lock; those it has behind it change nothing. */
  function Completed(apply: (Update, Doc) -> Doc, update: nat -> Update, s: State, w: nat): State {
    var loaded := Step(apply, update, s, Load(w));
    var begun := Step(apply, update, loaded, BeginTemp(w));
    var ended := Step(apply, update, begun, EndTemp(w));
    var renamed := Step(apply, update, ended, Rename(w));
    Step(apply, update, renamed, Return(w))
  }

  lemma CompletedIsARun(apply: (Update, Doc) -> Doc, update: nat -> Update, start: File, events: seq<Event>, w: nat)
    ensures Run(apply, update, start, events + [Load(w)] + [BeginTemp(w)] + [EndTemp(w)] + [Rename(w)] + [Return(w)])
         == Completed(apply, update, Run(apply, update, start, events), w)
  {
    RunOneMore(apply, update, start, events, Load(w));
    RunOneMore(apply, update, start, events + [Load(w)], BeginTemp(w));
    RunOneMore(apply, update, start, events + [Load(w)] + [BeginTemp(w)], EndTemp(w));
    RunOneMore(apply, update, start, events + [Load(w)] + [BeginTemp(w)] + [EndTemp(w)], Rename(w));
    RunOneMore(apply, update, start, events + [Load(w)] + [BeginTemp(w)] + [EndTemp(w)] + [Rename(w)], Return(w));
  }

  lemma RunOneMore(apply: (Update, Doc) -> Doc, update: nat -> Update, start: File, events: seq<Event>, e: Event)
    ensures Run(apply, update, start, events + [e]) == Step(apply, update, Run(apply, update, start, events), e)
  {
    assert (events + [e])[..|events|] == events;
  }

  /** Writing one update on top of a file. */
  function Rewritten(apply: (Update, Doc) -> Doc, u: Update, f: File): File {
    match f
    case Absent => Document(apply(u, map[]))
    case Document(doc) => Document(apply(u, doc))
    case _ => f
  }

  /** A waiting writer that finds the lock free writes its update on top of the
      file that is there, a missing one counting as empty, and answers true; a file
      it cannot read it leaves and answers false. Either way the lock is free again. */
  lemma WaitingWriterFinishes(apply: (Update, Doc) -> Doc, update: nat -> Update, s: State, w: nat)
    requires At(s, w, Waiting) && s.lock == None
    ensures var next := Completed(apply, update, Step(apply, update, s, Acquire(w)), w);
            && next.lock == None && next.target == Rewritten(apply, update(w), s.target)
            && At(next, w, Done(s.target.Absent? || s.target.Document?))
            && (forall v | v != w ::
                  (v in next.phases <==> v in s.phases) && (v in s.phases ==> next.phases[v] == s.phases[v]))
  {
  }

  /** Nothing blocks for good: in every reachable state whoever holds the lock can
      go on to its end, and then it is free. */
  lemma HolderCanFinish(apply: (Update, Doc) -> Doc, update: nat -> Update, start: File, events: seq<Event>, w: nat)
    requires Run(apply, update, start, events).lock == Some(w)
    ensures var next := Completed(apply, update, Run(apply, update, start, events), w);
            next.lock == None && w in next.phases && next.phases[w].Done?
  {
    var s := Run(apply, update, start, events);
    AlwaysConsistent(apply, update, start, events);
    assert InCriticalSection(s.phases[w]);
  }

  /** A failure at any point before the rename, and a crash at any point, leave
      the file as it is and the lock free. */
  lemma FailureFreesTheLock(apply: (Update, Doc) -> Doc, update: nat -> Update, start: File, events: seq<Event>, e: Event)
    requires var s := Run(apply, update, start, events);
             e.Crash? || (e.Fail? && s.lock == Some(e.w) && !At(s, e.w, Renamed))
    ensures var s := Run(apply, update, start, events);
            var next := Step(apply, update, s, e);
            next.lock == None && next.target == s.target && (e.Fail? ==> At(next, e.w, Done(false)))
  {
    AlwaysConsistent(apply, update, start, events);
  }

  lemma {:induction false} FoldKeepsField<K>(canonical: string -> Option<K>, update: nat -> Update, start: Doc,
                                             order: seq<nat>, committed: set<nat>, field: string)
    requires forall w | w in order && w in committed :: field !in Touches(update(w))
    ensures var doc := Folded((u, d) => Apply(canonical, u, d), update, start, order, committed);
            (field in doc <==> field in start) && (field in start ==> doc[field] == start[field])
  {
    if order != [] {
      var front, last := order[..|order| - 1], order[|order| - 1];
      assert last in order && forall w | w in front :: w in order;
      FoldKeepsField(canonical, update, start, front, committed, field);
      if last in committed {
        var before := Folded((u, d) => Apply(canonical, u, d), update, start, front, committed);
        ApplyTouchesOnly(canonical, update(last), before, field);
      }
    }
  }

  /** With the settings writers' own updates: after any run, crashes included, a
      field no committed update is about is in the file as the writers found it. */
  lemma UntouchedFieldStays<K>(canonical: string -> Option<K>, update: nat -> Update, start: File,
                               events: seq<Event>, field: string)
    requires var s := Run((u, d) => Apply(canonical, u, d), update, start, events);
             forall w | w in s.committed :: field !in Touches(update(w))
    ensures var s := Run((u, d) => Apply(canonical, u, d), update, start, events);
            && (field in DocOf(s.target) <==> field in DocOf(start))
            && (field in DocOf(start) ==> DocOf(s.target)[field] == DocOf(start)[field])
  {
    var apply := (u, d) => Apply(canonical, u, d);
    var s := Run(apply, update, start, events);
    NeverTornNeverLost(apply, update, start, events);
    FoldKeepsField(canonical, update, DocOf(start), s.order, s.committed, field);
  }
}
