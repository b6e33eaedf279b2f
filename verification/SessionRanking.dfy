/** The session lists: the newest-N collector behind the sidebar and the
    bounded attribution ranking behind a diff column. */
module SessionRanking {
  import opened Prelude
  import opened Ranking

  import Calendar
  import IsoStamp
  import Text

  /** Maximum matched sessions retained on one attribution column. */
  const MATCH_CAP: nat := 50

  datatype SessionMeta = SessionMeta(
    agent: nat,
    sessionId: string,
    timestamp: string,
    lastActivitySecs: i64,
    cwd: string,
    gitBranch: string,
    model: Option<string>,
    usage: Option<nat>
  )

  /** `recency_ordering`: last activity, then creation stamp, newest first. */
  function RecencyKey(s: SessionMeta): Key { Key(s.lastActivitySecs as int, s.timestamp) }

  /** `attribution_ordering`: sessions of the column's branch, then newest first. */
  function AttributionKey(s: SessionMeta, branch: string): Key {
    Key(if branch != "" && s.gitBranch == branch then 1 else 0, s.timestamp)
  }

  // ---- newest N, kept while rows stream in ----

  /** `RecentSessionCollector`. */
  class RecentSessionCollector {
    var retained: seq<SessionMeta>
    var omitted: nat
    const cap: nat
    var sorted: bool
    ghost var pushed: seq<SessionMeta>

    /** What is kept ranks to the first `cap` rows of everything pushed. */
    ghost predicate Valid()
      reads this
    {
      omitted == |pushed| - |retained| && Keeps(retained, sorted, pushed, cap)
    }

    constructor (cap: nat)
      ensures Valid() && pushed == [] && this.cap == cap
    {
      this.retained, this.omitted, this.cap, this.sorted := [], 0, cap, false;
      this.pushed := [];
    }

    method Push(session: SessionMeta)
      requires Valid()
      modifies this
      ensures Valid() && pushed == old(pushed) + [session]
    {
      ghost var earlier := pushed;
      if cap == 0 {
        omitted := omitted + 1;
        pushed := earlier + [session];
        return;
      }
      if |retained| < cap {
        Fill(session, earlier);
        pushed := earlier + [session];
        return;
      }
      if !sorted {
        Sort(earlier);
      }
      Displace(session, earlier);
      omitted := omitted + 1;
      pushed := earlier + [session];
    }

    /** While there is room every row is kept, and the last to fit ranks them all. */
    method Fill(session: SessionMeta, ghost earlier: seq<SessionMeta>)
      requires |retained| < cap && Keeps(retained, sorted, earlier, cap)
      modifies `retained, `sorted
      ensures |retained| == old(|retained|) + 1 && Keeps(retained, sorted, earlier + [session], cap)
    {
      StillFilling(retained, earlier, session, cap);
      retained := retained + [session];
      if |retained| == cap {
        Sort(earlier + [session]);
      }
    }

    /** From here on the retained rows are kept ranked. */
    method Sort(ghost earlier: seq<SessionMeta>)
      requires |retained| == cap && Keeps(retained, false, earlier, cap)
      modifies `retained, `sorted
      ensures sorted && |retained| == cap && Keeps(retained, true, earlier, cap)
    {
      SortAgain(retained);
      retained := StableSort(RecencyKey, retained);
      sorted := true;
    }

    /** The full collector's insert: the newcomer takes its place and the oldest
        row falls off, or the newcomer itself does. */
    method Displace(session: SessionMeta, ghost earlier: seq<SessionMeta>)
      requires cap > 0 && Keeps(retained, true, earlier, cap)
      modifies `retained
      ensures retained == Take(Place(RecencyKey, old(retained), session), cap)
      ensures |retained| == cap && Keeps(retained, true, earlier + [session], cap)
    {
      PlaceKeepsRanked(RecencyKey, retained, session);
      Displaced(retained, earlier, session, cap);
      var oldest := retained[|retained| - 1];
      if Ahead(RecencyKey(session), RecencyKey(oldest)) {
        var at := PartitionPoint(RecencyKey, retained, session);
        retained := retained[..at] + [session] + retained[at..];
        retained := retained[..|retained| - 1];
      } else {
        NotAheadOfLast(retained, session);
      }
    }

    /** The newest rows of everything pushed, and how many rows that leaves out. */
    method Finish() returns (rows: seq<SessionMeta>, left: nat)
      requires Valid()
      modifies this
      ensures rows == Take(StableSort(RecencyKey, pushed), cap)
      ensures left == |pushed| - Min(cap, |pushed|)
      ensures pushed == old(pushed)
    {
      if !sorted {
        retained := StableSort(RecencyKey, retained);
      } else {
        RankedIsSorted(RecencyKey, retained);
      }
      rows, left := retained, omitted;
    }
  }

  /** The rows kept, of those `pushed`. */
  ghost predicate Keeps(retained: seq<SessionMeta>, sorted: bool, pushed: seq<SessionMeta>, cap: nat) {
    && |retained| == Min(cap, |pushed|)
    && StableSort(RecencyKey, retained) == Take(StableSort(RecencyKey, pushed), cap)
    && (sorted ==> |retained| == cap && Ranked(RecencyKey, retained))
  }

  function Min(a: nat, b: nat): nat { if a < b then a else b }

  lemma StillFilling(kept: seq<SessionMeta>, earlier: seq<SessionMeta>, x: SessionMeta, cap: nat)
    requires Keeps(kept, false, earlier, cap) && |kept| < cap
    ensures Keeps(kept + [x], false, earlier + [x], cap)
  {
    SortOneMore(RecencyKey, kept, x);
    SortOneMore(RecencyKey, earlier, x);
  }

  lemma Displaced(kept: seq<SessionMeta>, earlier: seq<SessionMeta>, x: SessionMeta, cap: nat)
    requires Ranked(RecencyKey, kept)
    requires StableSort(RecencyKey, kept) == Take(StableSort(RecencyKey, earlier), cap)
    ensures StableSort(RecencyKey, Take(Place(RecencyKey, kept, x), cap)) == Take(StableSort(RecencyKey, earlier + [x]), cap)
  {
    RankedIsSorted(RecencyKey, kept);
    PlaceKeepsRanked(RecencyKey, kept, x);
    RankedIsSorted(RecencyKey, Take(Place(RecencyKey, kept, x), cap));
    SortOneMore(RecencyKey, earlier, x);
    PlaceAfterPruning(RecencyKey, StableSort(RecencyKey, earlier), x, cap);
  }

  lemma SortAgain(s: seq<SessionMeta>)
    ensures Ranked(RecencyKey, StableSort(RecencyKey, s))
    ensures StableSort(RecencyKey, StableSort(RecencyKey, s)) == StableSort(RecencyKey, s)
  {
    StableSortIsStable(RecencyKey, s);
    RankedIsSorted(RecencyKey, StableSort(RecencyKey, s));
  }

  lemma NotAheadOfLast(s: seq<SessionMeta>, x: SessionMeta)
    requires Ranked(RecencyKey, s) && s != []
    requires !Ahead(RecencyKey(x), RecencyKey(s[|s| - 1]))
    ensures Place(RecencyKey, s, x) == s + [x]
  {
    forall y | y in s
      ensures !Ahead(RecencyKey(x), RecencyKey(y))
    {
      AheadIsStrictWeakOrder(RecencyKey(x), RecencyKey(y), RecencyKey(s[|s| - 1]));
    }
    PlaceLast(RecencyKey, s, x);
  }

  /** `collect_recent_sessions`: streaming equals sorting everything and taking. */
  method CollectRecentSessions(sessions: seq<SessionMeta>, cap: nat) returns (rows: seq<SessionMeta>, omitted: nat)
    ensures rows == Take(StableSort(RecencyKey, sessions), cap)
    ensures omitted + |rows| == |sessions|
  {
    var collector := new RecentSessionCollector(cap);
    for i := 0 to |sessions|
      invariant collector.Valid() && fresh(collector) && collector.cap == cap
      invariant collector.pushed == sessions[..i]
    {
      PrefixOneMore(sessions, i);
      collector.Push(sessions[i]);
    }
    assert sessions[..|sessions|] == sessions;
    rows, omitted := collector.Finish();
  }

  /** More recently active, or as recently and created later. */
  predicate Newer(a: SessionMeta, b: SessionMeta) {
    || a.lastActivitySecs > b.lastActivitySecs
    || (a.lastActivitySecs == b.lastActivitySecs && Text.LexLess(b.timestamp, a.timestamp))
  }

  /** The rows shown and those left out are all the sessions, newest first, and
      sessions as new as each other stand in the order they came in. */
  lemma NewestAreKept(sessions: seq<SessionMeta>, cap: nat) returns (left: seq<SessionMeta>)
    ensures var all := Take(StableSort(RecencyKey, sessions), cap) + left;
            && multiset(all) == multiset(sessions)
            && (forall i, j | 0 <= i < j < |all| :: !Newer(all[j], all[i]))
            && (forall k :: Ties(RecencyKey, all, k) == Ties(RecencyKey, sessions, k))
    ensures |Take(StableSort(RecencyKey, sessions), cap)| == if cap < |sessions| then cap else |sessions|
  {
    var sorted := StableSort(RecencyKey, sessions);
    left := if cap <= |sorted| then sorted[cap..] else [];
    assert Take(sorted, cap) + left == sorted;
    SortIsPermutation(RecencyKey, sessions);
    StableSortIsStable(RecencyKey, sessions);
    forall i, j | 0 <= i < j < |sorted| ensures !Newer(sorted[j], sorted[i]) {
      assert !Ahead(RecencyKey(sorted[j]), RecencyKey(sorted[i]));
    }
  }

  // ---- attribution: branch before recency, capped while it fills ----

  function BranchKey(branch: string): SessionMeta -> Key { s => AttributionKey(s, branch) }

  function PairKey<P>(branch: string): ((SessionMeta, P)) -> Key
  {
    (p: (SessionMeta, P)) => AttributionKey(p.0, branch)
  }

  function Session<P>(): ((SessionMeta, P)) -> SessionMeta { (p: (SessionMeta, P)) => p.0 }

  /** `push_ranked_attribution`. */
  method PushRankedAttribution<P>(retained: seq<(SessionMeta, P)>, session: SessionMeta, payload: P,
                                  branch: string, cap: nat)
    returns (kept: seq<(SessionMeta, P)>)
    requires Ranked(PairKey(branch), retained) && |retained| <= cap
    ensures kept == Take(Place(PairKey(branch), retained, (session, payload)), cap)
    ensures Ranked(PairKey(branch), kept) && |kept| <= cap
  {
    kept := retained;
    if cap == 0 {
      return;
    }
    var at := PartitionPoint(PairKey(branch), retained, (session, payload));
    if at >= cap {
      return;
    }
    kept := retained[..at] + [(session, payload)] + retained[at..];
    if |kept| > cap {
      kept := kept[..|kept| - 1];
    }
  }

  /** `cwd_matches`, off Windows: equal once trailing separators are dropped. */
  predicate CwdMatches(recorded: string, scanned: string) {
    TrimSeparators(recorded) == TrimSeparators(scanned)
  }

  predicate IsSeparator(c: char) { c == '/' || c == '\\' }

  /** No separator to drop: none at the end, or a lone one, or a drive root. */
  predicate IsTrimmed(path: string) {
    || path == "" || !IsSeparator(path[|path| - 1])
    || |path| == 1 || (|path| == 3 && path[0] < '\U{80}' && path[1] == ':')
  }

  /** `trim_trailing_path_separators`: a lone separator and a drive root stay. A
      drive root is three bytes, so its letter is an ASCII character. */
  function TrimSeparators(path: string): (trimmed: string)
    ensures trimmed <= path && IsTrimmed(trimmed)
    ensures forall n | |trimmed| < n <= |path| :: !IsTrimmed(path[..n])
  {
    if path == "" then path
    else
      var last := path[|path| - 1];
      if last != '/' && last != '\\' then path
      else if |path| <= 1 || (|path| == 3 && path[0] < '\U{80}' && path[1] == ':') then path
      else
        var trimmed := TrimSeparators(path[..|path| - 1]);
        assert forall n | |trimmed| < n < |path| :: path[..|path| - 1][..n] == path[..n];
        assert path[..|path|] == path;
        trimmed
  }

  function Matching(sessions: seq<SessionMeta>, cwd: string): seq<SessionMeta> {
    if sessions == [] then []
    else (if CwdMatches(sessions[0].cwd, cwd) then [sessions[0]] else []) + Matching(sessions[1..], cwd)
  }

  /** The simple form: every matching session ranked, then the cap. */
  function RankedOnce(sessions: seq<SessionMeta>, cwd: string, branch: string): seq<SessionMeta> {
    Take(StableSort(BranchKey(branch), Matching(sessions, cwd)), MATCH_CAP)
  }

  lemma MatchingOfCons(x: SessionMeta, s: seq<SessionMeta>, cwd: string)
    ensures Matching([x] + s, cwd) == (if CwdMatches(x.cwd, cwd) then [x] else []) + Matching(s, cwd)
  {
    assert ([x] + s)[1..] == s;
  }

  lemma {:induction false} MatchingConcat(s: seq<SessionMeta>, t: seq<SessionMeta>, cwd: string)
    ensures Matching(s + t, cwd) == Matching(s, cwd) + Matching(t, cwd)
  {
    if s == [] {
      assert s + t == t;
    } else {
      var first, rest := s[0], s[1..];
      var head := if CwdMatches(first.cwd, cwd) then [first] else [];
      assert s + t == [first] + (rest + t);
      assert Matching(s + t, cwd) == head + Matching(rest + t, cwd) by {
        MatchingOfCons(first, rest + t, cwd);
      }
      MatchingConcat(rest, t, cwd);
      Regroup(head, Matching(rest, cwd), Matching(t, cwd));
    }
  }

  lemma MatchingOneMore(sessions: seq<SessionMeta>, i: nat, cwd: string)
    requires i < |sessions|
    ensures Matching(sessions[..i + 1], cwd)
         == Matching(sessions[..i], cwd) + (if CwdMatches(sessions[i].cwd, cwd) then [sessions[i]] else [])
  {
    var s := sessions[i];
    MatchingConcat(sessions[..i], [s], cwd);
    assert sessions[..i + 1] == sessions[..i] + [s] && [s][1..] == [];
  }

  lemma {:induction false} AllMatching(s: seq<SessionMeta>, cwd: string)
    requires forall x | x in s :: CwdMatches(x.cwd, cwd)
    ensures Matching(s, cwd) == s
  {
    if s != [] {
      assert s[0] in s;
      AllMatching(s[1..], cwd);
    }
  }

  lemma {:induction false} MatchingMatches(s: seq<SessionMeta>, cwd: string)
    ensures forall x | x in Matching(s, cwd) :: x in s && CwdMatches(x.cwd, cwd)
  {
    if s != [] {
      MatchingMatches(s[1..], cwd);
    }
  }

  /** `match_sessions_to_column`: the pruning insert equals ranking once. */
  method MatchSessionsToColumn(sessions: seq<SessionMeta>, cwd: string, branch: string) returns (rows: seq<SessionMeta>)
    ensures rows == RankedOnce(sessions, cwd, branch)
  {
    var matched: seq<(SessionMeta, ())> := [];
    ghost var taken: seq<(SessionMeta, ())> := [];
    for i := 0 to |sessions|
      invariant Ranked(PairKey(branch), matched) && |matched| <= MATCH_CAP
      invariant matched == Take(StableSort(PairKey(branch), taken), MATCH_CAP)
      invariant Map(Session<()>(), taken) == Matching(sessions[..i], cwd)
    {
      var s := sessions[i];
      MatchingOneMore(sessions, i, cwd);
      if CwdMatches(s.cwd, cwd) {
        PlaceAndPrune(PairKey(branch), taken, (s, ()), MATCH_CAP);
        matched := PushRankedAttribution(matched, s, (), branch, MATCH_CAP);
        taken := taken + [(s, ())];
      }
    }
    assert sessions[..|sessions|] == sessions;
    MapOfSort(Session<()>(), PairKey(branch), BranchKey(branch), taken);
    MapOfTake(Session<()>(), StableSort(PairKey(branch), taken), MATCH_CAP);
    rows := Map(Session<()>(), matched);
  }

  /** A stamp of a four-digit calendar date with a fraction of `width` digits. */
  ghost predicate HasStamp(s: SessionMeta, width: nat) {
    exists f: Calendar.Fields, n: nat :: StampIs(s, f, n, width)
  }

  predicate StampIs(s: SessionMeta, f: Calendar.Fields, n: nat, width: nat) {
    IsoStamp.FourDigitDate(f) && n < Text.Pow10(width) && s.timestamp == IsoStamp.StampText(f, IsoStamp.Ending(n, width))
  }

  predicate OnBranch(s: SessionMeta, branch: string) { branch != "" && s.gitBranch == branch }

  lemma NotAheadIsNotLater(a: SessionMeta, b: SessionMeta, branch: string, width: nat)
    requires HasStamp(a, width) && HasStamp(b, width)
    requires !Ahead(AttributionKey(b, branch), AttributionKey(a, branch))
    ensures OnBranch(b, branch) ==> OnBranch(a, branch)
    ensures OnBranch(a, branch) == OnBranch(b, branch) ==>
              IsoStamp.SecondsOrZero(a.timestamp) >= IsoStamp.SecondsOrZero(b.timestamp)
  {
    var f: Calendar.Fields, n: nat :| StampIs(a, f, n, width);
    var g: Calendar.Fields, m: nat :| StampIs(b, g, m, width);
    IsoStamp.StampOrderIsTimeOrder(f, n, g, m, width);
  }

  /** A column's rows stand by branch and then by time, newest first, though the
      ranking compares texts: where the stamps of the directory's sessions are
      calendar dates with fractions of one width. */
  lemma RowsStandByBranchThenTime(sessions: seq<SessionMeta>, cwd: string, branch: string, width: nat)
    requires forall s | s in sessions && CwdMatches(s.cwd, cwd) :: HasStamp(s, width)
    ensures var rows := RankedOnce(sessions, cwd, branch);
            forall i, j | 0 <= i < j < |rows| ::
              && (OnBranch(rows[j], branch) ==> OnBranch(rows[i], branch))
              && (OnBranch(rows[i], branch) == OnBranch(rows[j], branch) ==>
                    IsoStamp.SecondsOrZero(rows[i].timestamp) >= IsoStamp.SecondsOrZero(rows[j].timestamp))
  {
    var matching, rows := Matching(sessions, cwd), RankedOnce(sessions, cwd, branch);
    MatchingMatches(sessions, cwd);
    SortKeepsRows(BranchKey(branch), matching);
    StableSortIsStable(BranchKey(branch), matching);
    forall i, j | 0 <= i < j < |rows|
      ensures OnBranch(rows[j], branch) ==> OnBranch(rows[i], branch)
      ensures OnBranch(rows[i], branch) == OnBranch(rows[j], branch) ==>
                IsoStamp.SecondsOrZero(rows[i].timestamp) >= IsoStamp.SecondsOrZero(rows[j].timestamp)
    {
      var sorted := StableSort(BranchKey(branch), matching);
      assert rows[i] == sorted[i] && rows[j] == sorted[j];
      assert sorted[i] in sorted && sorted[j] in sorted;
      NotAheadIsNotLater(rows[i], rows[j], branch, width);
    }
  }

  /** On the column's branch, or on as good a branch and created later. */
  predicate Better(a: SessionMeta, b: SessionMeta, branch: string) {
    || (OnBranch(a, branch) && !OnBranch(b, branch))
    || (OnBranch(a, branch) == OnBranch(b, branch) && Text.LexLess(b.timestamp, a.timestamp))
  }

  lemma {:induction false} MatchingCounts(s: seq<SessionMeta>, cwd: string, x: SessionMeta)
    ensures multiset(Matching(s, cwd))[x] == if CwdMatches(x.cwd, cwd) then multiset(s)[x] else 0
  {
    if s != [] {
      MatchingCounts(s[1..], cwd, x);
      assert s == [s[0]] + s[1..];
    }
  }

  /** A column's rows and those left out are all the sessions of its directory,
      best first; fifty are shown, or all when there are fewer. */
  lemma BestAreKept(sessions: seq<SessionMeta>, cwd: string, branch: string) returns (left: seq<SessionMeta>)
    ensures var rows := RankedOnce(sessions, cwd, branch);
            && (|rows| == 50 || (|rows| < 50 && left == []))
            && (forall x :: multiset(rows + left)[x] == if CwdMatches(x.cwd, cwd) then multiset(sessions)[x] else 0)
            && (forall i, j | 0 <= i < j < |rows + left| :: !Better((rows + left)[j], (rows + left)[i], branch))
  {
    var matching := Matching(sessions, cwd);
    var sorted := StableSort(BranchKey(branch), matching);
    left := if MATCH_CAP <= |sorted| then sorted[MATCH_CAP..] else [];
    assert Take(sorted, MATCH_CAP) + left == sorted;
    SortIsPermutation(BranchKey(branch), matching);
    StableSortIsStable(BranchKey(branch), matching);
    forall x ensures multiset(sorted)[x] == if CwdMatches(x.cwd, cwd) then multiset(sessions)[x] else 0 {
      MatchingCounts(sessions, cwd, x);
    }
    forall i, j | 0 <= i < j < |sorted| ensures !Better(sorted[j], sorted[i], branch) {
      assert !Ahead(BranchKey(branch)(sorted[j]), BranchKey(branch)(sorted[i]));
    }
  }

  // ---- ranking agent by agent ----

  function Flatten(batches: seq<seq<SessionMeta>>): seq<SessionMeta> {
    if batches == [] then [] else Flatten(batches[..|batches| - 1]) + batches[|batches| - 1]
  }

  lemma RankedOnceAgain(s: seq<SessionMeta>, t: seq<SessionMeta>, cwd: string, branch: string)
    ensures RankedOnce(RankedOnce(s, cwd, branch) + t, cwd, branch) == RankedOnce(s + t, cwd, branch)
  {
    var kept := RankedOnce(s, cwd, branch);
    MatchingMatches(s, cwd);
    SortKeepsRows(BranchKey(branch), Matching(s, cwd));
    AllMatching(kept, cwd);
    MatchingConcat(kept, t, cwd);
    MatchingConcat(s, t, cwd);
    PruningLosesNothing(BranchKey(branch), Matching(s, cwd), Matching(t, cwd), MATCH_CAP);
  }

  /** `attribution_for_column`, over what each agent's reader returned: cutting
      to the cap after every agent equals ranking all agents' sessions once. */
  method AttributionForColumn(batches: seq<seq<SessionMeta>>, cwd: string,
                              branch: string) returns (all: seq<SessionMeta>)
    ensures all == RankedOnce(Flatten(batches), cwd, branch)
  {
    all := [];
    for i := 0 to |batches|
      invariant all == RankedOnce(Flatten(batches[..i]), cwd, branch)
    {
      RankedOnceAgain(Flatten(batches[..i]), batches[i], cwd, branch);
      assert batches[..i + 1][..i] == batches[..i];
      all := MatchSessionsToColumn(all + batches[i], cwd, branch);
    }
    assert batches[..|batches|] == batches;
  }

  // ---- pruning before the costly scan ----

  /** Enrichment that leaves everything the ranking looks at as it was found. */
  ghost predicate KeepsRanking<P>(enrich: ((SessionMeta, P)) -> SessionMeta, found: seq<(SessionMeta, P)>) {
    forall p | p in found ::
      enrich(p).cwd == p.0.cwd && enrich(p).gitBranch == p.0.gitBranch && enrich(p).timestamp == p.0.timestamp
  }

  /** `read_sessions_with_usage_for_attribution`, over the matching sessions the
      walk found with their paths. Only the retained candidates are enriched,
      and the answer is the one enriching everything would give. */
  method ReadSessionsWithUsage<P>(found: seq<(SessionMeta, P)>, enrich: ((SessionMeta, P)) -> SessionMeta,
                                        cwd: string, branch: string)
    returns (rows: seq<SessionMeta>, scans: nat)
    requires forall p | p in found :: CwdMatches(p.0.cwd, cwd)
    ensures KeepsRanking(enrich, found) ==> rows == RankedOnce(Map(enrich, found), cwd, branch)
    ensures scans == Min(MATCH_CAP, |found|)
  {
    var candidates: seq<(SessionMeta, P)> := [];
    for i := 0 to |found|
      invariant Ranked(PairKey(branch), candidates) && |candidates| <= MATCH_CAP
      invariant candidates == Take(StableSort(PairKey(branch), found[..i]), MATCH_CAP)
    {
      PlaceAndPrune(PairKey(branch), found[..i], found[i], MATCH_CAP);
      assert found[..i + 1] == found[..i] + [found[i]];
      candidates := PushRankedAttribution(candidates, found[i].0, found[i].1, branch, MATCH_CAP);
    }
    assert found[..|found|] == found;
    var enriched := Map(enrich, candidates);
    scans := |candidates|;
    rows := MatchSessionsToColumn(enriched, cwd, branch);
    if KeepsRanking(enrich, found) {
      EnrichAfterPruning(found, enrich, cwd, branch);
    }
  }

  /** The whole pipeline: every reader may cut its own batch to the cap before
      the column does, and the answer is still one ranking of everything. */
  lemma {:induction false} ReadersMayPrune(batches: seq<seq<SessionMeta>>, cut: seq<seq<SessionMeta>>,
                                           cwd: string, branch: string)
    requires |cut| == |batches|
    requires forall i | 0 <= i < |batches| :: cut[i] == batches[i] || cut[i] == RankedOnce(batches[i], cwd, branch)
    ensures RankedOnce(Flatten(cut), cwd, branch) == RankedOnce(Flatten(batches), cwd, branch)
  {
    if batches != [] {
      var last := |batches| - 1;
      var s, t := Flatten(batches[..last]), Flatten(cut[..last]);
      ReadersMayPrune(batches[..last], cut[..last], cwd, branch);
      RankedOnceAgain(t, cut[last], cwd, branch);
      RankedOnceAgain(s, cut[last], cwd, branch);
      if cut[last] != batches[last] {
        RankedOnceOfPruned(s, batches[last], cwd, branch);
      }
    }
  }

  lemma RankedOnceOfPruned(s: seq<SessionMeta>, t: seq<SessionMeta>, cwd: string, branch: string)
    ensures RankedOnce(s + RankedOnce(t, cwd, branch), cwd, branch) == RankedOnce(s + t, cwd, branch)
  {
    var kept := RankedOnce(t, cwd, branch);
    MatchingMatches(t, cwd);
    SortKeepsRows(BranchKey(branch), Matching(t, cwd));
    AllMatching(kept, cwd);
    MatchingConcat(s, kept, cwd);
    MatchingConcat(s, t, cwd);
    PruningLaterLosesNothing(BranchKey(branch), Matching(s, cwd), Matching(t, cwd), MATCH_CAP);
  }

  lemma EnrichAfterPruning<P>(found: seq<(SessionMeta, P)>, enrich: ((SessionMeta, P)) -> SessionMeta,
                                    cwd: string, branch: string)
    requires KeepsRanking(enrich, found) && forall p | p in found :: CwdMatches(p.0.cwd, cwd)
    ensures RankedOnce(Map(enrich, Take(StableSort(PairKey(branch), found), MATCH_CAP)), cwd, branch)
         == RankedOnce(Map(enrich, found), cwd, branch)
  {
    var everything := Map(enrich, found);
    MapOfSort(enrich, PairKey(branch), BranchKey(branch), found);
    MapOfTake(enrich, StableSort(PairKey(branch), found), MATCH_CAP);
    forall x | x in everything ensures CwdMatches(x.cwd, cwd) {
      var i :| 0 <= i < |everything| && everything[i] == x;
      assert found[i] in found;
    }
    AllMatching(everything, cwd);
    RankedTwice(everything, cwd, branch);
  }

  lemma RankedTwice(s: seq<SessionMeta>, cwd: string, branch: string)
    ensures RankedOnce(RankedOnce(s, cwd, branch), cwd, branch) == RankedOnce(s, cwd, branch)
  {
    RankedOnceAgain(s, [], cwd, branch);
    assert RankedOnce(s, cwd, branch) + [] == RankedOnce(s, cwd, branch) && s + [] == s;
  }
}
