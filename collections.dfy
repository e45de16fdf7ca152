/** Facts about sequences without repetitions, used to count records against URLs. */
module Collections {

  /** No element occurs twice. */
  predicate Distinct<T(==)>(s: seq<T>) {
    forall i, j :: 0 <= i < j < |s| ==> s[i] != s[j]
  }

  /** The set of the elements of a sequence. */
  function Elements<T>(s: seq<T>): set<T> {
    set x | x in s
  }

  /** A sequence without repetitions has as many elements as its set. */
  lemma {:induction false} DistinctCardinality<T>(s: seq<T>)
    requires Distinct(s)
    ensures |Elements(s)| == |s|
  {
    if s != [] {
      var t := s[1..];
      assert Distinct(t);
      DistinctCardinality(t);
      assert Elements(s) == Elements(t) + {s[0]};
      assert s[0] !in Elements(t) by {
        forall k | 0 <= k < |t| ensures t[k] != s[0] {
          assert t[k] == s[k + 1];
        }
      }
    }
  }

  /** A sequence without repetitions drawn from a set is no longer than the set, and as long when it covers it. */
  lemma DistinctWithin<T>(s: seq<T>, S: set<T>)
    requires Distinct(s)
    requires forall x :: x in s ==> x in S
    ensures |s| <= |S|
    ensures (forall x :: x in S ==> x in s) ==> |s| == |S|
  {
    DistinctCardinality(s);
    assert Elements(s) <= S;
    assert S == Elements(s) + (S - Elements(s));
    assert |S| == |Elements(s)| + |S - Elements(s)|;
    if forall x :: x in S ==> x in s {
      assert Elements(s) == S;
    }
  }
}
