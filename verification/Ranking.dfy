/** Stable ranking: the simple form (sort everything, then take) that the
    bounded, pruning forms are measured against. */
module Ranking {
  import opened Text

  /** Both session orders compare one integer and then one text, larger first. */
  datatype Key = Key(major: int, stamp: string)

  /** Strictly ahead in the ranking: the comparator answers `Less`. */
  predicate Ahead(a: Key, b: Key) {
    a.major > b.major || (a.major == b.major && LexLess(b.stamp, a.stamp))
  }

  lemma AheadIsStrictWeakOrder(a: Key, b: Key, c: Key)
    ensures !Ahead(a, a)
    ensures Ahead(a, b) || Ahead(b, a) || a == b
    ensures !(Ahead(a, b) && Ahead(b, a))
    ensures Ahead(a, b) && !Ahead(c, b) ==> Ahead(a, c)
    ensures !Ahead(b, a) && Ahead(b, c) ==> Ahead(a, c)
  {
    LexLessTotal(a.stamp, b.stamp);
    LexLessTotal(b.stamp, c.stamp);
    if LexLess(c.stamp, b.stamp) && LexLess(b.stamp, a.stamp) {
      LexLessTransitive(c.stamp, b.stamp, a.stamp);
    }
  }

  ghost predicate Ranked<T>(key: T -> Key, s: seq<T>) {
    forall i, j | 0 <= i < j < |s| :: !Ahead(key(s[j]), key(s[i]))
  }

  /** `x` put behind everything it is not ahead of. */
  function Place<T>(key: T -> Key, s: seq<T>, x: T): (r: seq<T>)
    ensures |r| == |s| + 1
  {
    if s == [] then [x]
    else if Ahead(key(x), key(s[0])) then [x] + s
    else [s[0]] + Place(key, s[1..], x)
  }

  /** `slice::sort_by`: arrivals are placed one by one, behind their ties. */
  function StableSort<T>(key: T -> Key, s: seq<T>): (r: seq<T>)
    ensures |r| == |s|
  {
    if s == [] then [] else Place(key, StableSort(key, s[..|s| - 1]), s[|s| - 1])
  }

  function Take<T>(s: seq<T>, n: nat): seq<T> { if n <= |s| then s[..n] else s }

  /** The rows of one key, in the order they stand in. */
  function Ties<T>(key: T -> Key, s: seq<T>, k: Key): seq<T> {
    if s == [] then []
    else (if key(s[0]) == k then [s[0]] else []) + Ties(key, s[1..], k)
  }

  // ---- what a stable sort is, and that there is only one ----

  lemma {:induction false} TiesOfConcat<T>(key: T -> Key, s: seq<T>, t: seq<T>, k: Key)
    ensures Ties(key, s + t, k) == Ties(key, s, k) + Ties(key, t, k)
  {
    if s == [] {
      assert s + t == t;
    } else {
      assert (s + t)[1..] == s[1..] + t;
      TiesOfConcat(key, s[1..], t, k);
    }
  }

  lemma TiesOfCons<T>(key: T -> Key, x: T, s: seq<T>, k: Key)
    ensures Ties(key, [x] + s, k) == (if key(x) == k then [x] else []) + Ties(key, s, k)
  {
    assert ([x] + s)[1..] == s;
  }

  lemma {:induction false} PlaceKeepsTies<T>(key: T -> Key, s: seq<T>, x: T, k: Key)
    requires Ranked(key, s)
    ensures Ties(key, Place(key, s, x), k) == Ties(key, s, k) + (if key(x) == k then [x] else [])
  {
    if s == [] {
      TiesOfCons(key, x, s, k);
      assert [x] + s == [x];
    } else if Ahead(key(x), key(s[0])) {
      TiesOfCons(key, x, s, k);
      if key(x) == k {
        NoTiesBehind(key, s, key(x));
      }
    } else {
      var rest := s[1..];
      PlaceKeepsTies(key, rest, x, k);
      TiesOfCons(key, s[0], Place(key, rest, x), k);
      TiesOfCons(key, s[0], rest, k);
      assert s == [s[0]] + rest;
    }
  }

  lemma {:induction false} NoTiesBehind<T>(key: T -> Key, s: seq<T>, k: Key)
    requires Ranked(key, s)
    requires s != [] ==> Ahead(k, key(s[0]))
    ensures Ties(key, s, k) == []
  {
    if s != [] {
      AheadIsStrictWeakOrder(k, key(s[0]), key(s[0]));
      if |s| > 1 {
        AheadIsStrictWeakOrder(k, key(s[0]), key(s[1]));
      }
      NoTiesBehind(key, s[1..], k);
    }
  }

  lemma {:induction false} PlaceKeepsRanked<T>(key: T -> Key, s: seq<T>, x: T)
    requires Ranked(key, s)
    ensures Ranked(key, Place(key, s, x))
    ensures forall y | y in Place(key, s, x) :: y == x || y in s
  {
    if s != [] {
      if Ahead(key(x), key(s[0])) {
        forall i | 0 <= i < |s|
          ensures !Ahead(key(s[i]), key(x))
        {
          AheadIsStrictWeakOrder(key(x), key(s[0]), key(s[i]));
          AheadIsStrictWeakOrder(key(x), key(s[i]), key(x));
        }
      } else {
        PlaceKeepsRanked(key, s[1..], x);
        var r := Place(key, s[1..], x);
        forall i | 0 <= i < |r|
          ensures !Ahead(key(r[i]), key(s[0]))
        {
          assert r[i] == x || r[i] in s[1..];
        }
      }
    }
  }

  /** The sort ranks its rows and leaves rows of one key in arrival order. */
  lemma {:induction false} StableSortIsStable<T>(key: T -> Key, s: seq<T>)
    ensures Ranked(key, StableSort(key, s))
    ensures forall k :: Ties(key, StableSort(key, s), k) == Ties(key, s, k)
  {
    if s != [] {
      var front, x := s[..|s| - 1], s[|s| - 1];
      StableSortIsStable(key, front);
      PlaceKeepsRanked(key, StableSort(key, front), x);
      forall k ensures Ties(key, StableSort(key, s), k) == Ties(key, s, k) {
        PlaceKeepsTies(key, StableSort(key, front), x, k);
        TiesOfConcat(key, front, [x], k);
        assert s == front + [x];
        assert [x][1..] == [];
      }
    }
  }

  lemma {:induction false} TiesFound<T>(key: T -> Key, s: seq<T>, k: Key)
    ensures Ties(key, s, k) != [] <==> exists i :: 0 <= i < |s| && key(s[i]) == k
  {
    if s != [] {
      TiesFound(key, s[1..], k);
      if i :| 0 <= i < |s| && key(s[i]) == k {
        assert i > 0 ==> s[1..][i - 1] == s[i];
      }
      if i :| 0 <= i < |s[1..]| && key(s[1..][i]) == k {
        assert s[i + 1] == s[1..][i];
      }
    }
  }

  lemma HeadsAgree<T>(key: T -> Key, s: seq<T>, t: seq<T>)
    requires Ranked(key, s) && Ranked(key, t) && s != []
    requires forall k :: Ties(key, s, k) == Ties(key, t, k)
    ensures t != [] && !Ahead(key(s[0]), key(t[0]))
  {
    var k := key(s[0]);
    TiesFound(key, s, k);
    TiesFound(key, t, k);
    var i :| 0 <= i < |t| && key(t[i]) == k;
    AheadIsStrictWeakOrder(k, k, k);
  }

  /** Ranked, with ties in arrival order, leaves exactly one list. */
  lemma {:induction false} StableOrderIsUnique<T>(key: T -> Key, s: seq<T>, t: seq<T>)
    requires Ranked(key, s) && Ranked(key, t)
    requires forall k :: Ties(key, s, k) == Ties(key, t, k)
    ensures s == t
  {
    if s == [] && t == [] {
    } else if s == [] {
      HeadsAgree(key, t, s);
    } else {
      HeadsAgree(key, s, t);
      HeadsAgree(key, t, s);
      var k := key(s[0]);
      AheadIsStrictWeakOrder(k, key(t[0]), k);
      assert Ties(key, s, k)[0] == s[0] && Ties(key, t, k)[0] == t[0];
      forall j ensures Ties(key, s[1..], j) == Ties(key, t[1..], j) {
        var head := if j == k then [s[0]] else [];
        assert Ties(key, s, j) == Ties(key, t, j);
        assert Ties(key, s, j) == head + Ties(key, s[1..], j) && Ties(key, t, j) == head + Ties(key, t[1..], j);
        assert Ties(key, s, j)[|head|..] == Ties(key, s[1..], j) && Ties(key, t, j)[|head|..] == Ties(key, t[1..], j);
      }
      StableOrderIsUnique(key, s[1..], t[1..]);
      assert s == [s[0]] + s[1..] && t == [t[0]] + t[1..];
    }
  }

  // ---- pruning as rows arrive ----

  lemma SortOneMore<T>(key: T -> Key, s: seq<T>, x: T)
    ensures StableSort(key, s + [x]) == Place(key, StableSort(key, s), x)
  {
    assert (s + [x])[..|s|] == s;
  }

  lemma {:induction false} PlaceLast<T>(key: T -> Key, s: seq<T>, x: T)
    requires forall y | y in s :: !Ahead(key(x), key(y))
    ensures Place(key, s, x) == s + [x]
  {
    if s != [] {
      assert s[0] in s;
      PlaceLast(key, s[1..], x);
    }
  }

  lemma {:induction false} RankedIsSorted<T>(key: T -> Key, s: seq<T>)
    requires Ranked(key, s)
    ensures StableSort(key, s) == s
  {
    if s != [] {
      RankedIsSorted(key, s[..|s| - 1]);
      PlaceLast(key, s[..|s| - 1], s[|s| - 1]);
    }
  }

  /** A row cut off by the cap stays cut off whatever arrives later. */
  lemma {:induction false} PlaceAfterPruning<T>(key: T -> Key, s: seq<T>, x: T, cap: nat)
    ensures Take(Place(key, Take(s, cap), x), cap) == Take(Place(key, s, x), cap)
  {
    if s != [] && cap > 0 {
      var kept := Take(s, cap);
      assert kept[0] == s[0] && kept[1..] == Take(s[1..], cap - 1);
      if Ahead(key(x), key(s[0])) {
        assert Place(key, kept, x) == [x] + kept && Place(key, s, x) == [x] + s;
      } else {
        PlaceAfterPruning(key, s[1..], x, cap - 1);
        TakeOfCons(s[0], Place(key, kept[1..], x), cap);
        TakeOfCons(s[0], Place(key, s[1..], x), cap);
      }
    }
  }

  lemma TakeOfCons<T>(x: T, s: seq<T>, n: nat)
    requires n > 0
    ensures Take([x] + s, n) == [x] + Take(s, n - 1)
  {
  }

  /** Placing each arrival in the pruned list keeps it the pruned sort of all arrivals. */
  lemma PlaceAndPrune<T>(key: T -> Key, s: seq<T>, x: T, cap: nat)
    ensures Take(Place(key, Take(StableSort(key, s), cap), x), cap) == Take(StableSort(key, s + [x]), cap)
  {
    PlaceAfterPruning(key, StableSort(key, s), x, cap);
    SortOneMore(key, s, x);
  }

  /** Ranking and pruning a first batch before the rest arrives loses nothing. */
  lemma {:induction false} PruningLosesNothing<T>(key: T -> Key, s: seq<T>, t: seq<T>, cap: nat)
    ensures Take(StableSort(key, Take(StableSort(key, s), cap) + t), cap) == Take(StableSort(key, s + t), cap)
    decreases |t|
  {
    var kept := Take(StableSort(key, s), cap);
    if t == [] {
      StableSortIsStable(key, s);
      RankedIsSorted(key, kept);
      assert kept + t == kept && s + t == s;
    } else {
      var front, x := t[..|t| - 1], t[|t| - 1];
      PruningLosesNothing(key, s, front, cap);
      assert kept + t == (kept + front) + [x] && s + t == (s + front) + [x];
      PlaceAndPrune(key, kept + front, x, cap);
      PlaceAndPrune(key, s + front, x, cap);
    }
  }

  /** How many rows of `s` `x` is not ahead of. */
  function NotBehind<T>(key: T -> Key, s: seq<T>, x: T): (n: nat)
    ensures n <= |s|
  {
    if s == [] then 0 else (if Ahead(key(x), key(s[0])) then 0 else 1) + NotBehind(key, s[1..], x)
  }

  lemma {:induction false} NotBehindPlaced<T>(key: T -> Key, s: seq<T>, y: T, x: T)
    ensures NotBehind(key, Place(key, s, y), x) >= NotBehind(key, s, x)
    ensures !Ahead(key(x), key(y)) ==> NotBehind(key, Place(key, s, y), x) == NotBehind(key, s, x) + 1
  {
    if s == [] {
    } else if Ahead(key(y), key(s[0])) {
      assert ([y] + s)[1..] == s;
    } else {
      NotBehindPlaced(key, s[1..], y, x);
    }
  }

  /** A row that `cap` others precede does not make the cut. */
  lemma {:induction false} PlacedBeyond<T>(key: T -> Key, s: seq<T>, x: T, cap: nat)
    requires Ranked(key, s) && NotBehind(key, s, x) >= cap
    ensures Take(Place(key, s, x), cap) == Take(s, cap)
  {
    if cap > 0 {
      if Ahead(key(x), key(s[0])) {
        NoneNotBehind(key, s, x);
      } else {
        PlacedBeyond(key, s[1..], x, cap - 1);
        TakeOfCons(s[0], Place(key, s[1..], x), cap);
        TakeOfCons(s[0], s[1..], cap);
        assert s == [s[0]] + s[1..];
      }
    }
  }

  lemma {:induction false} NoneNotBehind<T>(key: T -> Key, s: seq<T>, x: T)
    requires Ranked(key, s) && (s != [] ==> Ahead(key(x), key(s[0])))
    ensures NotBehind(key, s, x) == 0
  {
    if s != [] {
      if |s| > 1 {
        AheadIsStrictWeakOrder(key(x), key(s[0]), key(s[1]));
      }
      NoneNotBehind(key, s[1..], x);
    }
  }

  lemma {:induction false} NotBehindSorted<T>(key: T -> Key, s: seq<T>, t: seq<T>, x: T)
    requires forall y | y in t :: !Ahead(key(x), key(y))
    ensures NotBehind(key, StableSort(key, s + t), x) >= |t|
  {
    if t != [] {
      var front := t[..|t| - 1];
      NotBehindSorted(key, s, front, x);
      assert s + t == (s + front) + [t[|t| - 1]];
      SortOneMore(key, s + front, t[|t| - 1]);
      NotBehindPlaced(key, StableSort(key, s + front), t[|t| - 1], x);
    }
  }

  lemma LastIsBehind<T>(key: T -> Key, t: seq<T>)
    requires Ranked(key, t) && t != []
    ensures Ranked(key, t[..|t| - 1])
    ensures forall y | y in t[..|t| - 1] :: !Ahead(key(t[|t| - 1]), key(y))
  {
    forall y | y in t[..|t| - 1] ensures !Ahead(key(t[|t| - 1]), key(y)) {
      var i :| 0 <= i < |t| - 1 && t[i] == y;
    }
  }

  lemma LastAddsNothing<T>(key: T -> Key, s: seq<T>, x: T, cap: nat)
    requires NotBehind(key, StableSort(key, s), x) >= cap
    ensures Take(StableSort(key, s + [x]), cap) == Take(StableSort(key, s), cap)
  {
    SortOneMore(key, s, x);
    StableSortIsStable(key, s);
    PlacedBeyond(key, StableSort(key, s), x, cap);
  }

  /** The last of a ranked batch has all the others before it. */
  lemma LastHasOthersBefore<T>(key: T -> Key, s: seq<T>, t: seq<T>)
    requires Ranked(key, t) && t != []
    ensures NotBehind(key, StableSort(key, s + t[..|t| - 1]), t[|t| - 1]) >= |t| - 1
  {
    LastIsBehind(key, t);
    NotBehindSorted(key, s, t[..|t| - 1], t[|t| - 1]);
  }

  /** A ranked batch can be cut to the cap before it is added. */
  lemma {:induction false} RankedBatchCut<T>(key: T -> Key, s: seq<T>, t: seq<T>, cap: nat)
    requires Ranked(key, t)
    ensures Take(StableSort(key, s + Take(t, cap)), cap) == Take(StableSort(key, s + t), cap)
    decreases |t|
  {
    if |t| > cap {
      var front, x := t[..|t| - 1], t[|t| - 1];
      assert Take(front, cap) == Take(t, cap);
      assert Take(StableSort(key, s + Take(front, cap)), cap) == Take(StableSort(key, s + front), cap) by {
        RankedBatchCut(key, s, front, cap);
      }
      assert (s + front) + [x] == s + t;
      assert Take(StableSort(key, s + t), cap) == Take(StableSort(key, s + front), cap) by {
        LastHasOthersBefore(key, s, t);
        LastAddsNothing(key, s + front, x, cap);
      }
    } else {
      assert Take(t, cap) == t;
    }
  }

  lemma SortLaterBatchFirst<T>(key: T -> Key, s: seq<T>, t: seq<T>)
    ensures StableSort(key, s + StableSort(key, t)) == StableSort(key, s + t)
  {
    StableSortIsStable(key, t);
    StableSortIsStable(key, s + t);
    StableSortIsStable(key, s + StableSort(key, t));
    forall k ensures Ties(key, s + StableSort(key, t), k) == Ties(key, s + t, k) {
      TiesOfConcat(key, s, t, k);
      TiesOfConcat(key, s, StableSort(key, t), k);
    }
    StableOrderIsUnique(key, StableSort(key, s + StableSort(key, t)), StableSort(key, s + t));
  }

  /** Nor does ranking and pruning a later batch before it is added. */
  lemma PruningLaterLosesNothing<T>(key: T -> Key, s: seq<T>, t: seq<T>, cap: nat)
    ensures Take(StableSort(key, s + Take(StableSort(key, t), cap)), cap) == Take(StableSort(key, s + t), cap)
  {
    StableSortIsStable(key, t);
    RankedBatchCut(key, s, StableSort(key, t), cap);
    SortLaterBatchFirst(key, s, t);
  }

  function Map<A, B>(f: A -> B, s: seq<A>): (r: seq<B>)
    ensures |r| == |s| && forall i | 0 <= i < |s| :: r[i] == f(s[i])
  {
    seq(|s|, i requires 0 <= i < |s| => f(s[i]))
  }

  lemma MapOfTake<A, B>(f: A -> B, s: seq<A>, n: nat)
    ensures Map(f, Take(s, n)) == Take(Map(f, s), n)
  {
  }

  lemma {:induction false} MapOfPlace<A, B>(f: A -> B, keyA: A -> Key, keyB: B -> Key, s: seq<A>, x: A)
    requires keyB(f(x)) == keyA(x) && forall a | a in s :: keyB(f(a)) == keyA(a)
    ensures Map(f, Place(keyA, s, x)) == Place(keyB, Map(f, s), f(x))
  {
    if s != [] && !Ahead(keyA(x), keyA(s[0])) {
      assert s[0] in s;
      MapOfPlace(f, keyA, keyB, s[1..], x);
      assert Map(f, s)[1..] == Map(f, s[1..]);
    } else if s != [] {
      assert s[0] in s;
    }
  }

  /** A change to the rows that keeps their keys can be made before or after ranking. */
  lemma {:induction false} MapOfSort<A, B>(f: A -> B, keyA: A -> Key, keyB: B -> Key, s: seq<A>)
    requires forall a | a in s :: keyB(f(a)) == keyA(a)
    ensures Map(f, StableSort(keyA, s)) == StableSort(keyB, Map(f, s))
  {
    if s != [] {
      var front, x := s[..|s| - 1], s[|s| - 1];
      MapOfSort(f, keyA, keyB, front);
      SortKeepsRows(keyA, front);
      MapOfPlace(f, keyA, keyB, StableSort(keyA, front), x);
      assert Map(f, s)[..|s| - 1] == Map(f, front);
    }
  }

  lemma {:induction false} SortKeepsRows<T>(key: T -> Key, s: seq<T>)
    ensures forall x | x in StableSort(key, s) :: x in s
  {
    if s != [] {
      SortKeepsRows(key, s[..|s| - 1]);
      StableSortIsStable(key, s[..|s| - 1]);
      PlaceKeepsRanked(key, StableSort(key, s[..|s| - 1]), s[|s| - 1]);
    }
  }

  lemma {:induction false} PlaceAdds<T>(key: T -> Key, s: seq<T>, x: T)
    ensures multiset(Place(key, s, x)) == multiset(s) + multiset{x}
  {
    if s == [] {
    } else if Ahead(key(x), key(s[0])) {
      assert multiset([x] + s) == multiset{x} + multiset(s);
    } else {
      var first, rest := s[0], s[1..];
      PlaceAdds(key, rest, x);
      assert s == [first] + rest;
      assert multiset([first] + Place(key, rest, x)) == multiset{first} + multiset(Place(key, rest, x));
    }
  }

  /** Sorting adds no row and loses none. */
  lemma {:induction false} SortIsPermutation<T>(key: T -> Key, s: seq<T>)
    ensures multiset(StableSort(key, s)) == multiset(s)
  {
    if s != [] {
      var front, x := s[..|s| - 1], s[|s| - 1];
      SortIsPermutation(key, front);
      PlaceAdds(key, StableSort(key, front), x);
      assert s == front + [x];
    }
  }

  // ---- binary search for the place ----

  /** `partition_point` on a ranked list: the first row that `x` is ahead of. */
  method PartitionPoint<T>(key: T -> Key, s: seq<T>, x: T) returns (at: nat)
    requires Ranked(key, s)
    ensures at <= |s|
    ensures s[..at] + [x] + s[at..] == Place(key, s, x)
    ensures Ranked(key, s[..at] + [x] + s[at..])
  {
    at := 0;
    var high := |s|;
    while at < high
      invariant at <= high <= |s|
      invariant forall i | 0 <= i < at :: !Ahead(key(x), key(s[i]))
      invariant forall i | high <= i < |s| :: Ahead(key(x), key(s[i]))
    {
      var mid := at + (high - at) / 2;
      if !Ahead(key(x), key(s[mid])) {
        forall i | at <= i < mid ensures !Ahead(key(x), key(s[i])) {
          AheadIsStrictWeakOrder(key(x), key(s[i]), key(s[mid]));
        }
        at := mid + 1;
      } else {
        forall i | mid < i < high ensures Ahead(key(x), key(s[i])) {
          AheadIsStrictWeakOrder(key(x), key(s[mid]), key(s[i]));
        }
        high := mid;
      }
    }
    PlaceAt(key, s, x, at);
    PlaceKeepsRanked(key, s, x);
  }

  lemma {:induction false} PlaceAt<T>(key: T -> Key, s: seq<T>, x: T, at: nat)
    requires at <= |s|
    requires forall i | 0 <= i < at :: !Ahead(key(x), key(s[i]))
    requires at < |s| ==> Ahead(key(x), key(s[at]))
    ensures s[..at] + [x] + s[at..] == Place(key, s, x)
  {
    if at > 0 {
      PlaceAt(key, s[1..], x, at - 1);
      assert s == [s[0]] + s[1..];
    }
  }
}
