/** The session readers' cache: a map with access stamps that behaves as a
    bounded recency list. */
module SessionCache {
  import opened Prelude
  import opened Ranking

  const MAX_CACHE_ENTRIES: nat := 10

  /** One millisecond; times are nanoseconds. */
  const MTIME_FUZZ := 1_000_000

  /** The agent and the directory scanned. */
  type CacheKey = (nat, string)

  /** Not before the cached time, and by less than the fuzz after it. */
  predicate WithinFuzz(cached: int, observed: int) { 0 <= observed - cached < MTIME_FUZZ }

  // ---- the simple form: a recency list, latest use first ----

  datatype Row<P> = Row(key: CacheKey, mtime: int, payload: P)

  function Position<P>(rows: seq<Row<P>>, key: CacheKey): (i: nat)
    ensures i <= |rows|
    ensures i < |rows| ==> rows[i].key == key
    ensures forall j | 0 <= j < i :: rows[j].key != key
  {
    if rows == [] || rows[0].key == key then 0 else 1 + Position(rows[1..], key)
  }

  predicate Holds<P>(rows: seq<Row<P>>, key: CacheKey) { Position(rows, key) < |rows| }

  function RowOf<P>(rows: seq<Row<P>>, key: CacheKey): Option<Row<P>> {
    if Holds(rows, key) then Some(rows[Position(rows, key)]) else None
  }

  function Without<P>(rows: seq<Row<P>>, key: CacheKey): seq<Row<P>> {
    var i := Position(rows, key);
    if i < |rows| then rows[..i] + rows[i + 1..] else rows
  }

  function ToFront<P>(rows: seq<Row<P>>, row: Row<P>): seq<Row<P>> { [row] + Without(rows, row.key) }

  /** A store puts the row in front; what falls off the end is forgotten. */
  function Stored<P>(rows: seq<Row<P>>, row: Row<P>): seq<Row<P>> { Take(ToFront(rows, row), MAX_CACHE_ENTRIES) }

  predicate Fresh<P>(rows: seq<Row<P>>, key: CacheKey, observed: int) {
    Holds(rows, key) && WithinFuzz(rows[Position(rows, key)].mtime, observed)
  }

  /** A hit moves its row to the front as it was; a miss changes nothing. */
  function Looked<P>(rows: seq<Row<P>>, key: CacheKey, observed: int): seq<Row<P>> {
    if Fresh(rows, key, observed) then ToFront(rows, rows[Position(rows, key)]) else rows
  }

  function Answer<P>(rows: seq<Row<P>>, key: CacheKey, observed: int): Option<P> {
    if Fresh(rows, key, observed) then Some(rows[Position(rows, key)].payload) else None
  }

  // ---- the map with stamps ----

  datatype Entry<P> = Entry(mtime: int, payload: P, accessSeq: nat)

  /** `order` lists the keys by falling stamp, all below `next`. */
  ghost predicate Stamped<P>(order: seq<CacheKey>, entries: map<CacheKey, Entry<P>>, next: nat) {
    && (forall k :: k in order <==> k in entries)
    && (forall i, j | 0 <= i < j < |order| :: entries[order[i]].accessSeq > entries[order[j]].accessSeq)
    && (forall k | k in entries :: entries[k].accessSeq < next)
  }

  ghost function RowsOf<P>(order: seq<CacheKey>, entries: map<CacheKey, Entry<P>>): (rows: seq<Row<P>>)
    requires forall k | k in order :: k in entries
    ensures |rows| == |order|
    ensures forall i | 0 <= i < |order| :: rows[i] == Row(order[i], entries[order[i]].mtime, entries[order[i]].payload)
  {
    seq(|order|, i requires 0 <= i < |order| => Row(order[i], entries[order[i]].mtime, entries[order[i]].payload))
  }

  class Cache<P> {
    var entries: map<CacheKey, Entry<P>>
    var nextSeq: nat
    ghost var order: seq<CacheKey>

    ghost predicate Valid()
      reads this
    {
      Stamped(order, entries, nextSeq) && |order| <= MAX_CACHE_ENTRIES
    }

    /** The recency list this map stands for. */
    ghost function Rows(): seq<Row<P>>
      requires Valid()
      reads this
    {
      RowsOf(order, entries)
    }

    constructor ()
      ensures Valid() && Rows() == []
    {
      entries, nextSeq, order := map[], 0, [];
    }

    method Lookup(key: CacheKey, observed: int) returns (found: Option<P>)
      requires Valid()
      modifies this
      ensures Valid()
      ensures Rows() == Looked(old(Rows()), key, observed)
      ensures found == Answer(old(Rows()), key, observed)
    {
      KeyPosition(order, entries, nextSeq, key);
      if key !in entries {
        return None;
      }
      var entry := entries[key];
      if !WithinFuzz(entry.mtime, observed) {
        return None;
      }
      Touched(order, entries, nextSeq, key, entry.mtime, entry.payload);
      order := Front(order, entries, key);
      entries := entries[key := entry.(accessSeq := nextSeq)];
      nextSeq := nextSeq + 1;
      return Some(entry.payload);
    }

    method StoreResult(key: CacheKey, mtime: int, payload: P)
      requires Valid()
      modifies this
      ensures Valid()
      ensures Rows() == Stored(old(Rows()), Row(key, mtime, payload))
    {
      KeyPosition(order, entries, nextSeq, key);
      OrderCounts(order, entries, nextSeq);
      StoredRows(Rows(), Row(key, mtime, payload));
      if |entries| >= MAX_CACHE_ENTRIES && key !in entries {
        var victim := LeastRecentlyUsed();
        Evicted(order, entries, nextSeq);
        entries := entries - {victim};
        order := order[..|order| - 1];
      }
      Touched(order, entries, nextSeq, key, mtime, payload);
      order := Front(order, entries, key);
      entries := entries[key := Entry(mtime, payload, nextSeq)];
      nextSeq := nextSeq + 1;
    }

    /** `min_by_key` over the stamps. */
    method LeastRecentlyUsed() returns (victim: CacheKey)
      requires Valid() && |entries| > 0
      ensures order != [] && victim == order[|order| - 1]
    {
      var rest := entries.Keys;
      victim :| victim in rest;
      while rest != {}
        invariant rest <= entries.Keys && victim in entries
        invariant forall k | k in entries && k !in rest :: entries[victim].accessSeq <= entries[k].accessSeq
        decreases |rest|
      {
        var k :| k in rest;
        if entries[k].accessSeq < entries[victim].accessSeq {
          victim := k;
        }
        rest := rest - {k};
      }
      assert victim in order;
      assert order[|order| - 1] in order;
    }
  }

  /** The order once `key` has been used. */
  ghost function Front<P>(order: seq<CacheKey>, entries: map<CacheKey, Entry<P>>, key: CacheKey): seq<CacheKey>
    requires forall k | k in order :: k in entries
  {
    var i := Position(RowsOf(order, entries), key);
    [key] + (if i < |order| then order[..i] + order[i + 1..] else order)
  }

  lemma KeyPosition<P>(order: seq<CacheKey>, entries: map<CacheKey, Entry<P>>, next: nat, key: CacheKey)
    requires Stamped(order, entries, next)
    ensures Holds(RowsOf(order, entries), key) <==> key in entries
  {
    if key in entries {
      assert key in order;
    } else {
      assert key !in order;
    }
  }

  lemma KeysWithout(order: seq<CacheKey>, i: nat)
    requires i < |order| && forall a, b | 0 <= a < b < |order| :: order[a] != order[b]
    ensures forall k :: k in order[..i] + order[i + 1..] <==> k in order && k != order[i]
  {
    var rest := order[..i] + order[i + 1..];
    forall k | k in order && k != order[i] ensures k in rest {
      var j :| 0 <= j < |order| && order[j] == k;
      assert rest[if j < i then j else j - 1] == k;
    }
  }

  /** Where row `a` of an order that lacks place `i` stood in the whole order. */
  function OldPlace(a: nat, i: nat): nat { if a < i then a else a + 1 }

  lemma OrderWithout(order: seq<CacheKey>, i: nat, a: nat)
    requires i < |order| && a < |order| - 1
    ensures (order[..i] + order[i + 1..])[a] == order[OldPlace(a, i)]
  {
  }

  lemma RemovedOrder<P>(order: seq<CacheKey>, entries: map<CacheKey, Entry<P>>, i: nat, a: nat, b: nat)
    requires forall k | k in order :: k in entries
    requires forall x, y | 0 <= x < y < |order| :: entries[order[x]].accessSeq > entries[order[y]].accessSeq
    requires i < |order| && a < b < |order| - 1
    ensures var rest := order[..i] + order[i + 1..];
            rest[a] in entries && rest[b] in entries && entries[rest[a]].accessSeq > entries[rest[b]].accessSeq
  {
    OrderWithout(order, i, a);
    OrderWithout(order, i, b);
  }

  lemma RemovedKeys<P>(order: seq<CacheKey>, entries: map<CacheKey, Entry<P>>, next: nat, i: nat)
    requires Stamped(order, entries, next) && i < |order|
    ensures forall k :: k in order[..i] + order[i + 1..] <==> k in entries - {order[i]}
  {
    StampsTellKeysApart(order, entries, next);
    KeysWithout(order, i);
  }

  lemma RemovedStamps<P>(order: seq<CacheKey>, entries: map<CacheKey, Entry<P>>, next: nat, i: nat)
    requires Stamped(order, entries, next) && i < |order|
    ensures Stamped(order[..i] + order[i + 1..], entries - {order[i]}, next)
  {
    var rest, left := order[..i] + order[i + 1..], entries - {order[i]};
    RemovedKeys(order, entries, next, i);
    forall a, b | 0 <= a < b < |rest|
      ensures rest[a] in left && rest[b] in left && left[rest[a]].accessSeq > left[rest[b]].accessSeq
    {
      assert rest[a] in rest && rest[b] in rest;
      RemovedOrder(order, entries, i, a, b);
    }
  }

  lemma StampsTellKeysApart<P>(order: seq<CacheKey>, entries: map<CacheKey, Entry<P>>, next: nat)
    requires Stamped(order, entries, next)
    ensures forall a, b | 0 <= a < b < |order| :: order[a] != order[b]
  {
    forall a, b | 0 <= a < b < |order| ensures order[a] != order[b] {
      assert entries[order[a]].accessSeq > entries[order[b]].accessSeq;
    }
  }

  lemma RemovedRows<P>(order: seq<CacheKey>, entries: map<CacheKey, Entry<P>>, left: map<CacheKey, Entry<P>>, i: nat)
    requires i < |order| && forall k | k in order :: k in entries
    requires forall k | k in order[..i] + order[i + 1..] :: k in left && left[k] == entries[k]
    ensures RowsOf(order[..i] + order[i + 1..], left) == RowsOf(order, entries)[..i] + RowsOf(order, entries)[i + 1..]
  {
    var rest, rows := order[..i] + order[i + 1..], RowsOf(order, entries);
    forall a | 0 <= a < |rest| ensures RowsOf(rest, left)[a] == (rows[..i] + rows[i + 1..])[a] {
      OrderWithout(order, i, a);
      assert rest[a] in rest && rest[a] in left;
    }
  }

  lemma Removed<P>(order: seq<CacheKey>, entries: map<CacheKey, Entry<P>>, next: nat, i: nat)
    requires Stamped(order, entries, next) && i < |order|
    ensures var rest, left := order[..i] + order[i + 1..], entries - {order[i]};
            && Stamped(rest, left, next)
            && RowsOf(rest, left) == RowsOf(order, entries)[..i] + RowsOf(order, entries)[i + 1..]
  {
    RemovedStamps(order, entries, next, i);
    RemovedRows(order, entries, entries - {order[i]}, i);
  }

  lemma Pushed<P>(order: seq<CacheKey>, entries: map<CacheKey, Entry<P>>, next: nat, key: CacheKey, mtime: int,
                  payload: P)
    requires Stamped(order, entries, next) && key !in entries
    ensures var more := entries[key := Entry(mtime, payload, next)];
            && Stamped([key] + order, more, next + 1)
            && RowsOf([key] + order, more) == [Row(key, mtime, payload)] + RowsOf(order, entries)
  {
    assert forall j | 0 <= j < |order| :: order[j] in order;
  }

  lemma Touched<P>(order: seq<CacheKey>, entries: map<CacheKey, Entry<P>>, next: nat, key: CacheKey, mtime: int,
                   payload: P)
    requires Stamped(order, entries, next)
    ensures var entries' := entries[key := Entry(mtime, payload, next)];
            && Stamped(Front(order, entries, key), entries', next + 1)
            && RowsOf(Front(order, entries, key), entries') == ToFront(RowsOf(order, entries), Row(key, mtime, payload))
    ensures |Front(order, entries, key)| == if key in entries then |order| else |order| + 1
  {
    var rows, row := RowsOf(order, entries), Row(key, mtime, payload);
    var i := Position(rows, key);
    KeyPosition(order, entries, next, key);
    if key in entries {
      assert Front(order, entries, key) == [key] + (order[..i] + order[i + 1..]);
      assert ToFront(rows, row) == [row] + (rows[..i] + rows[i + 1..]);
      TouchedAt(order, entries, next, i, row);
    } else {
      assert Front(order, entries, key) == [key] + order && ToFront(rows, row) == [row] + rows;
      Pushed(order, entries, next, key, mtime, payload);
    }
  }

  lemma TouchedAt<P>(order: seq<CacheKey>, entries: map<CacheKey, Entry<P>>, next: nat, i: nat, row: Row<P>)
    requires Stamped(order, entries, next) && i < |order| && order[i] == row.key
    ensures var rest := order[..i] + order[i + 1..];
            var entries' := entries[row.key := Entry(row.mtime, row.payload, next)];
            && Stamped([row.key] + rest, entries', next + 1)
            && RowsOf([row.key] + rest, entries') == [row] + (RowsOf(order, entries)[..i] + RowsOf(order, entries)[i + 1..])
  {
    var rest, left := order[..i] + order[i + 1..], entries - {row.key};
    Removed(order, entries, next, i);
    Pushed(rest, left, next, row.key, row.mtime, row.payload);
    assert left[row.key := Entry(row.mtime, row.payload, next)] == entries[row.key := Entry(row.mtime, row.payload, next)];
  }

  lemma Evicted<P>(order: seq<CacheKey>, entries: map<CacheKey, Entry<P>>, next: nat)
    requires Stamped(order, entries, next) && order != []
    ensures var last := |order| - 1;
            && Stamped(order[..last], entries - {order[last]}, next)
            && RowsOf(order[..last], entries - {order[last]}) == RowsOf(order, entries)[..last]
  {
    var last := |order| - 1;
    Removed(order, entries, next, last);
    assert order[..last] + order[last + 1..] == order[..last];
  }

  /** What a store makes of the rows, evicting first or not. */
  lemma StoredRows<P>(rows: seq<Row<P>>, row: Row<P>)
    requires |rows| <= MAX_CACHE_ENTRIES
    ensures |rows| == MAX_CACHE_ENTRIES && !Holds(rows, row.key) ==>
              !Holds(rows[..|rows| - 1], row.key) && ToFront(rows[..|rows| - 1], row) == Stored(rows, row)
    ensures |rows| < MAX_CACHE_ENTRIES || Holds(rows, row.key) ==> ToFront(rows, row) == Stored(rows, row)
  {
  }

  lemma {:induction false} OrderCounts<P>(order: seq<CacheKey>, entries: map<CacheKey, Entry<P>>, next: nat)
    requires Stamped(order, entries, next)
    ensures |order| == |entries|
  {
    if order == [] {
      assert entries == map[];
    } else {
      var last := |order| - 1;
      Evicted(order, entries, next);
      OrderCounts(order[..last], entries - {order[last]}, next);
      assert (entries - {order[last]}).Keys == entries.Keys - {order[last]};
      assert order[last] in order;
    }
  }

  // ---- over whole histories ----

  datatype Use<P> = Store(row: Row<P>) | Lookup(key: CacheKey, observed: int)

  /** The bounded list after a history, oldest use first in `uses`. */
  function After<P>(uses: seq<Use<P>>): seq<Row<P>> {
    if uses == [] then [] else
      var rows := After(uses[..|uses| - 1]);
      match uses[|uses| - 1]
      case Store(row) => Stored(rows, row)
      case Lookup(key, observed) => Looked(rows, key, observed)
  }

  /** A list that forgets nothing: every key ever stored, latest use first. Only
      its first rows can answer. */
  function Remembered<P>(uses: seq<Use<P>>): seq<Row<P>> {
    if uses == [] then [] else
      var rows := Remembered(uses[..|uses| - 1]);
      match uses[|uses| - 1]
      case Store(row) => ToFront(rows, row)
      case Lookup(key, observed) =>
        var i := Position(rows, key);
        if i < |rows| && i < MAX_CACHE_ENTRIES && WithinFuzz(rows[i].mtime, observed) then ToFront(rows, rows[i]) else rows
  }

  function LatestStore<P>(uses: seq<Use<P>>, key: CacheKey): Option<Row<P>> {
    if uses == [] then None
    else
      var last := uses[|uses| - 1];
      if last.Store? && last.row.key == key then Some(last.row) else LatestStore(uses[..|uses| - 1], key)
  }

  lemma {:induction false} PositionOfTaken<P>(rows: seq<Row<P>>, key: CacheKey, n: nat)
    ensures Position(Take(rows, n), key) == if Position(rows, key) < n then Position(rows, key) else |Take(rows, n)|
  {
    if rows != [] && rows[0].key != key && n > 0 {
      assert Take(rows, n)[1..] == Take(rows[1..], n - 1);
      PositionOfTaken(rows[1..], key, n - 1);
    }
  }

  lemma RemovedAround<P>(rows: seq<Row<P>>, i: nat, n: nat)
    requires 0 < n < |rows| && i < |rows|
    ensures i < n ==> rows[..n][..i] + rows[..n][i + 1..] == (rows[..i] + rows[i + 1..])[..n - 1]
    ensures i >= n ==> (rows[..i] + rows[i + 1..])[..n - 1] == rows[..n][..n - 1]
  {
  }

  lemma WithoutOfTaken<P>(rows: seq<Row<P>>, key: CacheKey, n: nat)
    requires n > 0
    ensures Take(Without(Take(rows, n), key), n - 1) == Take(Without(rows, key), n - 1)
  {
    var i := Position(rows, key);
    PositionOfTaken(rows, key, n);
    if |rows| <= n {
      assert Take(rows, n) == rows;
    } else if i < |rows| {
      RemovedAround(rows, i, n);
      if n <= i {
        assert Without(rows[..n], key) == rows[..n];
      }
    } else {
      assert Without(rows[..n], key) == rows[..n] && Without(rows, key) == rows;
    }
  }

  lemma ToFrontOfTaken<P>(rows: seq<Row<P>>, row: Row<P>, n: nat)
    requires n > 0
    ensures Take(ToFront(Take(rows, n), row), n) == Take(ToFront(rows, row), n)
  {
    WithoutOfTaken(rows, row.key, n);
    TakeOfCons(row, Without(Take(rows, n), row.key), n);
    TakeOfCons(row, Without(rows, row.key), n);
  }

  /** The bounded cache holds exactly the first ten rows of the list that forgets nothing. */
  lemma {:induction false} EvictionForgetsTheColdest<P>(uses: seq<Use<P>>)
    ensures After(uses) == Take(Remembered(uses), MAX_CACHE_ENTRIES)
  {
    if uses != [] {
      var earlier := uses[..|uses| - 1];
      EvictionForgetsTheColdest(earlier);
      var rows := Remembered(earlier);
      match uses[|uses| - 1] {
        case Store(row) =>
          ToFrontOfTaken(rows, row, MAX_CACHE_ENTRIES);
        case Lookup(key, observed) =>
          PositionOfTaken(rows, key, MAX_CACHE_ENTRIES);
          var i := Position(rows, key);
          if i < |rows| && i < MAX_CACHE_ENTRIES {
            ToFrontOfTaken(rows, rows[i], MAX_CACHE_ENTRIES);
            assert |ToFront(Take(rows, MAX_CACHE_ENTRIES), rows[i])| == |Take(rows, MAX_CACHE_ENTRIES)|;
          }
      }
    }
  }

  lemma RowOfCons<P>(row: Row<P>, rest: seq<Row<P>>, key: CacheKey)
    ensures RowOf([row] + rest, key) == if row.key == key then Some(row) else RowOf(rest, key)
  {
    assert ([row] + rest)[1..] == rest;
  }

  lemma WithoutOfCons<P>(row: Row<P>, rest: seq<Row<P>>, gone: CacheKey)
    ensures Without([row] + rest, gone) == if row.key == gone then rest else [row] + Without(rest, gone)
  {
    assert ([row] + rest)[1..] == rest;
  }

  lemma {:induction false} WithoutKeepsOthers<P>(rows: seq<Row<P>>, gone: CacheKey, key: CacheKey)
    requires key != gone
    ensures RowOf(Without(rows, gone), key) == RowOf(rows, key)
  {
    if rows != [] {
      var first, rest := rows[0], rows[1..];
      assert rows == [first] + rest;
      WithoutKeepsOthers(rest, gone, key);
      WithoutOfCons(first, rest, gone);
      RowOfCons(first, rest, key);
      RowOfCons(first, Without(rest, gone), key);
    }
  }

  /** Putting a row in front replaces its key's row and no other. */
  lemma ToFrontKeepsOthers<P>(rows: seq<Row<P>>, row: Row<P>, key: CacheKey)
    ensures RowOf(ToFront(rows, row), key) == if key == row.key then Some(row) else RowOf(rows, key)
  {
    RowOfCons(row, Without(rows, row.key), key);
    if key != row.key {
      WithoutKeepsOthers(rows, row.key, key);
    }
  }

  /** Lookups move rows and never change one: every key keeps its latest store. */
  lemma {:induction false} RowsAreLatestStores<P>(uses: seq<Use<P>>, key: CacheKey)
    ensures RowOf(Remembered(uses), key) == LatestStore(uses, key)
  {
    if uses != [] {
      var earlier := uses[..|uses| - 1];
      RowsAreLatestStores(earlier, key);
      var rows := Remembered(earlier);
      match uses[|uses| - 1] {
        case Store(row) =>
          ToFrontKeepsOthers(rows, row, key);
        case Lookup(k, observed) =>
          var i := Position(rows, k);
          if i < |rows| {
            ToFrontKeepsOthers(rows, rows[i], key);
          }
      }
    }
  }

  // ---- how recently a key was used ----

  /** The other keys used since `key` was. A store is a use, and so is a lookup that hits. */
  function UsedSince<P>(uses: seq<Use<P>>, key: CacheKey): set<CacheKey> {
    if uses == [] then {}
    else
      var front, last := uses[..|uses| - 1], uses[|uses| - 1];
      var hit := last.Lookup? && Answer(After(front), last.key, last.observed).Some?;
      var used := if last.Store? then last.row.key else last.key;
      if last.Lookup? && !hit then UsedSince(front, key)
      else if used == key then {}
      else UsedSince(front, key) + {used}
  }

  /** The keys of the rows in front of `key`. */
  function KeysBefore<P>(rows: seq<Row<P>>, key: CacheKey): set<CacheKey> {
    if rows == [] || rows[0].key == key then {} else {rows[0].key} + KeysBefore(rows[1..], key)
  }

  predicate Apart<P>(rows: seq<Row<P>>) { rows == [] || (!Holds(rows[1..], rows[0].key) && Apart(rows[1..])) }

  lemma KeysBeforeOfCons<P>(row: Row<P>, rest: seq<Row<P>>, key: CacheKey)
    ensures KeysBefore([row] + rest, key) == if row.key == key then {} else {row.key} + KeysBefore(rest, key)
    ensures Apart([row] + rest) <==> !Holds(rest, row.key) && Apart(rest)
    ensures Holds([row] + rest, key) <==> row.key == key || Holds(rest, key)
  {
    assert ([row] + rest)[1..] == rest;
  }

  lemma {:induction false} BeforeIsHeld<P>(rows: seq<Row<P>>, key: CacheKey, other: CacheKey)
    ensures other in KeysBefore(rows, key) ==> Holds(rows, other)
  {
    if rows != [] && rows[0].key != key {
      BeforeIsHeld(rows[1..], key, other);
    }
  }

  lemma {:induction false} PositionCounts<P>(rows: seq<Row<P>>, key: CacheKey)
    requires Apart(rows)
    ensures |KeysBefore(rows, key)| == Position(rows, key)
  {
    if rows != [] && rows[0].key != key {
      PositionCounts(rows[1..], key);
      BeforeIsHeld(rows[1..], key, rows[0].key);
    }
  }

  lemma {:induction false} WithoutStaysApart<P>(rows: seq<Row<P>>, gone: CacheKey)
    requires Apart(rows)
    ensures Apart(Without(rows, gone)) && !Holds(Without(rows, gone), gone)
  {
    if rows != [] {
      var first, rest := rows[0], rows[1..];
      assert rows == [first] + rest;
      WithoutOfCons(first, rest, gone);
      if first.key != gone {
        WithoutStaysApart(rest, gone);
        WithoutKeepsOthers(rest, gone, first.key);
        KeysBeforeOfCons(first, Without(rest, gone), gone);
      }
    }
  }

  lemma {:induction false} WithoutKeysBefore<P>(rows: seq<Row<P>>, gone: CacheKey, key: CacheKey)
    requires Apart(rows) && key != gone
    ensures KeysBefore(Without(rows, gone), key) == KeysBefore(rows, key) - {gone}
  {
    if rows != [] {
      var first, rest := rows[0], rows[1..];
      assert rows == [first] + rest;
      WithoutOfCons(first, rest, gone);
      KeysBeforeOfCons(first, rest, key);
      if first.key == gone {
        BeforeIsHeld(rest, key, gone);
      } else {
        WithoutKeysBefore(rest, gone, key);
        KeysBeforeOfCons(first, Without(rest, gone), key);
      }
    }
  }

  /** Using a key puts it before all others and changes nothing else about their order. */
  lemma ToFrontKeysBefore<P>(rows: seq<Row<P>>, row: Row<P>, key: CacheKey)
    requires Apart(rows)
    ensures Apart(ToFront(rows, row))
    ensures Holds(ToFront(rows, row), key) <==> key == row.key || Holds(rows, key)
    ensures Holds(ToFront(rows, row), key) ==>
              KeysBefore(ToFront(rows, row), key) == if key == row.key then {} else KeysBefore(rows, key) + {row.key}
  {
    WithoutStaysApart(rows, row.key);
    if key != row.key {
      WithoutKeepsOthers(rows, row.key, key);
      WithoutKeysBefore(rows, row.key, key);
    }
    KeysBeforeOfCons(row, Without(rows, row.key), key);
  }

  /** A key stands behind exactly the keys used since. */
  lemma {:induction false} StandsBehindUsedSince<P>(uses: seq<Use<P>>, key: CacheKey)
    ensures Apart(Remembered(uses))
    ensures Holds(Remembered(uses), key) ==> KeysBefore(Remembered(uses), key) == UsedSince(uses, key)
  {
    if uses != [] {
      var front := uses[..|uses| - 1];
      var rows := Remembered(front);
      StandsBehindUsedSince(front, key);
      match uses[|uses| - 1] {
        case Store(row) =>
          ToFrontKeysBefore(rows, row, key);
        case Lookup(k, observed) =>
          HitMovesRemembered(front, k, observed);
          if Answer(After(front), k, observed).Some? {
            ToFrontKeysBefore(rows, rows[Position(rows, k)], key);
          }
      }
    }
  }

  lemma HitMovesRemembered<P>(uses: seq<Use<P>>, key: CacheKey, observed: int)
    ensures var rows := Remembered(uses);
            var i := Position(rows, key);
            Answer(After(uses), key, observed).Some?
            <==> i < |rows| && i < MAX_CACHE_ENTRIES && WithinFuzz(rows[i].mtime, observed)
  {
    EvictionForgetsTheColdest(uses);
    PositionOfTaken(Remembered(uses), key, MAX_CACHE_ENTRIES);
  }

  /** After any history a lookup answers exactly when fewer than ten other keys
      were used since its key was and the observed time lies in the millisecond
      from the time its latest store gave, however many hits came between; and the
      answer is that store's payload. */
  lemma HitIsTheLatestStore<P>(uses: seq<Use<P>>, key: CacheKey, observed: int)
    ensures var latest := LatestStore(uses, key);
            var answer := Answer(After(uses), key, observed);
            && (answer.Some? <==>
                  latest.Some? && latest.value.mtime <= observed < latest.value.mtime + 1_000_000
                  && |UsedSince(uses, key)| < 10)
            && (answer.Some? ==> answer.value == latest.value.payload)
  {
    RowsAreLatestStores(uses, key);
    StandsBehindUsedSince(uses, key);
    PositionCounts(Remembered(uses), key);
    HitMovesRemembered(uses, key, observed);
    EvictionForgetsTheColdest(uses);
    PositionOfTaken(Remembered(uses), key, MAX_CACHE_ENTRIES);
  }
}
