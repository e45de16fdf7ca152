/**
 * The final `sorted(cars, key=...)` of both scrapers: a stable sort by the
 * rank of the normalised make (makes the dictionary lacks go last, as
 * `float('inf')` does), then by the model string.
 */
module Sorter {
  import opened Records
  import opened Text
  import opened MakeDictionary

  /** A make's rank, or the `float('inf')` every rank is below. */
  datatype Rank = Ranked(index: nat) | Unranked

  predicate RankLt(a: Rank, b: Rank) {
    match (a, b)
    case (Ranked(i), Ranked(j)) => i < j
    case (Ranked(_), Unranked) => true
    case (Unranked, _) => false
  }

  /** The sort key of a record: `valid_car_makes.get(x['Make'].strip().lower(), float('inf'))` and `x['Model']`. */
  datatype SortKey = SortKey(rank: Rank, model: string)

  function KeyOf(rank: map<string, nat>, r: Record): (k: SortKey)
    ensures k.model == r.model
    ensures k.rank.Ranked? <==> CellKey(r.make) in rank
    ensures k.rank.Ranked? ==> k.rank.index == rank[CellKey(r.make)]
  {
    var make := CellKey(r.make);
    SortKey(if make in rank then Ranked(rank[make]) else Unranked, r.model)
  }

  /** A record whose make is a key of a normalised dictionary sorts by that key's rank. */
  lemma StoredMakeRanked(d: MakeDict, r: Record)
    requires Normalised(d) && r.make in d.rank
    ensures KeyOf(d.rank, r).rank == Ranked(d.rank[r.make])
  {
  }

  /** Python's `<=` on the key tuples: by rank, equal ranks by model. */
  predicate KeyLe(a: SortKey, b: SortKey) {
    RankLt(a.rank, b.rank) || (a.rank == b.rank && StrLe(a.model, b.model))
  }

  lemma KeyLeReflexive(a: SortKey)
    ensures KeyLe(a, a)
  {
    StrLeReflexive(a.model);
  }

  lemma KeyLeTotal(a: SortKey, b: SortKey)
    ensures KeyLe(a, b) || KeyLe(b, a)
  {
    StrLeTotal(a.model, b.model);
  }

  lemma KeyLeTransitive(a: SortKey, b: SortKey, c: SortKey)
    requires KeyLe(a, b) && KeyLe(b, c)
    ensures KeyLe(a, c)
  {
    if a.rank == b.rank == c.rank {
      StrLeTransitive(a.model, b.model, c.model);
    }
  }

  /** Keys in both orders are the same key: the order leaves no ties but true ones. */
  lemma KeyLeAntisymmetric(a: SortKey, b: SortKey)
    requires KeyLe(a, b) && KeyLe(b, a)
    ensures a == b
  {
    if a.rank == b.rank {
      StrLeAntisymmetric(a.model, b.model);
    }
  }

  /** Every record is keyed no later than every record after it. */
  predicate Sorted(key: Record -> SortKey, s: seq<Record>) {
    forall i, j :: 0 <= i < j < |s| ==> KeyLe(key(s[i]), key(s[j]))
  }

  /** `x` placed before the first record it is keyed no later than. */
  function Insert(key: Record -> SortKey, x: Record, s: seq<Record>): (r: seq<Record>)
    ensures |r| == |s| + 1
  {
    if s == [] then [x]
    else if KeyLe(key(x), key(s[0])) then [x] + s
    else [s[0]] + Insert(key, x, s[1..])
  }

  /** `sorted(s, key=key)`: a stable sort, as insertion of each record, from the last, into the sorted rest. */
  function SortBy(key: Record -> SortKey, s: seq<Record>): (r: seq<Record>)
    ensures |r| == |s|
  {
    if s == [] then [] else Insert(key, s[0], SortBy(key, s[1..]))
  }

  /** The scrapers' final sort, keyed by the dictionary's ranks. */
  function SortCars(rank: map<string, nat>, cars: seq<Record>): (r: seq<Record>)
    ensures |r| == |cars|
  {
    SortBy(r => KeyOf(rank, r), cars)
  }

  /** The records of `s` whose key is `k`, in their order in `s`. */
  function WithKey(key: Record -> SortKey, s: seq<Record>, k: SortKey): (r: seq<Record>)
    ensures |r| <= |s|
  {
    if s == [] then []
    else if key(s[0]) == k then [s[0]] + WithKey(key, s[1..], k)
    else WithKey(key, s[1..], k)
  }

  lemma {:induction false} InsertPermutation(key: Record -> SortKey, x: Record, s: seq<Record>)
    ensures multiset(Insert(key, x, s)) == multiset(s) + multiset{x}
  {
    if s != [] && !KeyLe(key(x), key(s[0])) {
      InsertPermutation(key, x, s[1..]);
      assert s == [s[0]] + s[1..];
    }
  }

  lemma {:induction false} InsertSorted(key: Record -> SortKey, x: Record, s: seq<Record>)
    requires Sorted(key, s)
    ensures Sorted(key, Insert(key, x, s))
  {
    if s == [] {
    } else if KeyLe(key(x), key(s[0])) {
      forall j | 0 <= j < |s| ensures KeyLe(key(x), key(s[j])) {
        if j > 0 {
          KeyLeTransitive(key(x), key(s[0]), key(s[j]));
        }
      }
    } else {
      var t := Insert(key, x, s[1..]);
      InsertSorted(key, x, s[1..]);
      InsertPermutation(key, x, s[1..]);
      KeyLeTotal(key(x), key(s[0]));
      forall j | 0 <= j < |t| ensures KeyLe(key(s[0]), key(t[j])) {
        assert t[j] in multiset(s[1..]) + multiset{x};
        if t[j] != x {
          assert t[j] in s[1..];
        }
      }
    }
  }

  lemma {:induction false} SortBySorted(key: Record -> SortKey, s: seq<Record>)
    ensures Sorted(key, SortBy(key, s))
  {
    if s != [] {
      SortBySorted(key, s[1..]);
      InsertSorted(key, s[0], SortBy(key, s[1..]));
    }
  }

  lemma {:induction false} SortByPermutation(key: Record -> SortKey, s: seq<Record>)
    ensures multiset(SortBy(key, s)) == multiset(s)
  {
    if s != [] {
      SortByPermutation(key, s[1..]);
      InsertPermutation(key, s[0], SortBy(key, s[1..]));
      assert s == [s[0]] + s[1..];
    }
  }

  /** Inserting x puts it before every record of its own key and moves no other. */
  lemma {:induction false} InsertWithKey(key: Record -> SortKey, x: Record, s: seq<Record>, k: SortKey)
    ensures WithKey(key, Insert(key, x, s), k) ==
      if key(x) == k then [x] + WithKey(key, s, k) else WithKey(key, s, k)
  {
    if s == [] {
    } else if KeyLe(key(x), key(s[0])) {
      assert ([x] + s)[1..] == s;
    } else {
      KeyLeReflexive(key(x));
      InsertWithKey(key, x, s[1..], k);
      assert ([s[0]] + Insert(key, x, s[1..]))[1..] == Insert(key, x, s[1..]);
    }
  }

  lemma {:induction false} SortByStable(key: Record -> SortKey, s: seq<Record>, k: SortKey)
    ensures WithKey(key, SortBy(key, s), k) == WithKey(key, s, k)
  {
    if s != [] {
      SortByStable(key, s[1..], k);
      InsertWithKey(key, s[0], SortBy(key, s[1..]), k);
    }
  }

  /**
   * The output of the final sort: a permutation of the records found, in key
   * order, with the records of each key in the order they were found.
   */
  lemma SortCarsCorrect(rank: map<string, nat>, cars: seq<Record>)
    ensures var key := r => KeyOf(rank, r);
      && Sorted(key, SortCars(rank, cars))
      && multiset(SortCars(rank, cars)) == multiset(cars)
      && forall k :: WithKey(key, SortCars(rank, cars), k) == WithKey(key, cars, k)
  {
    var key := r => KeyOf(rank, r);
    SortBySorted(key, cars);
    SortByPermutation(key, cars);
    forall k ensures WithKey(key, SortCars(rank, cars), k) == WithKey(key, cars, k) {
      SortByStable(key, cars, k);
    }
  }
}
