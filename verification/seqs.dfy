/** Small facts about sequences used throughout the model. */
module Seqs {

  /** No element occurs twice. */
  predicate Distinct<T(==)>(s: seq<T>)
  {
    forall i, j :: 0 <= i < j < |s| ==> s[i] != s[j]
  }

  /** Number of occurrences of `x` in `s`. */
  function Count<T(==)>(s: seq<T>, x: T): nat
  {
    if |s| == 0 then 0
    else (if s[0] == x then 1 else 0) + Count(s[1..], x)
  }

  /** The elements of `s` as a set. */
  function Elems<T>(s: seq<T>): set<T>
  {
    set x | x in s
  }

  /** Dedup in order: the elements of `s` not in `seen`, each at its
      first occurrence. */
  function FirstSeen<T(==)>(seen: set<T>, s: seq<T>): seq<T>
    decreases |s|
  {
    if |s| == 0 then []
    else if s[0] in seen then FirstSeen(seen, s[1..])
    else [s[0]] + FirstSeen(seen + {s[0]}, s[1..])
  }

  lemma {:induction false} FirstSeenSpec<T>(seen: set<T>, ids: seq<T>)
    ensures Distinct(FirstSeen(seen, ids))
    ensures Elems(FirstSeen(seen, ids)) == Elems(ids) - seen
    decreases |ids|
  {
    if |ids| > 0 {
      if ids[0] in seen {
        FirstSeenSpec(seen, ids[1..]);
        assert Elems(ids) == {ids[0]} + Elems(ids[1..]);
      } else {
        var rest := FirstSeen(seen + {ids[0]}, ids[1..]);
        FirstSeenSpec(seen + {ids[0]}, ids[1..]);
        assert FirstSeen(seen, ids) == [ids[0]] + rest;
        assert Elems([ids[0]] + rest) == {ids[0]} + Elems(rest);
        assert Elems(ids) == {ids[0]} + Elems(ids[1..]);
        assert ids[0] !in Elems(rest);
      }
    }
  }

  lemma FirstSeenCons<T>(seen: set<T>, x: T, rest: seq<T>)
    ensures FirstSeen(seen, [x] + rest) ==
      if x in seen then FirstSeen(seen, rest) else [x] + FirstSeen(seen + {x}, rest)
  {
    assert ([x] + rest)[0] == x && ([x] + rest)[1..] == rest;
  }

  /** Deduplicating a concatenation: the second part is deduplicated
      against everything the first part contributed. */
  lemma {:induction false} FirstSeenAppend<T>(seen: set<T>, a: seq<T>, b: seq<T>)
    ensures FirstSeen(seen, a + b) == FirstSeen(seen, a) + FirstSeen(seen + Elems(a), b)
    decreases |a|
  {
    if |a| == 0 {
      assert a + b == b;
      assert seen + Elems(a) == seen;
    } else {
      assert (a + b)[0] == a[0];
      assert (a + b)[1..] == a[1..] + b;
      assert Elems(a) == {a[0]} + Elems(a[1..]);
      if a[0] in seen {
        FirstSeenAppend(seen, a[1..], b);
        assert seen + Elems(a) == seen + Elems(a[1..]);
      } else {
        FirstSeenAppend(seen + {a[0]}, a[1..], b);
        assert seen + {a[0]} + Elems(a[1..]) == seen + Elems(a);
      }
    }
  }

  lemma {:induction false} CountPositive<T>(s: seq<T>, x: T)
    ensures Count(s, x) > 0 <==> x in s
  {
    if |s| > 0 {
      CountPositive(s[1..], x);
    }
  }

  lemma {:induction false} DistinctCard<T>(s: seq<T>)
    requires Distinct(s)
    ensures |Elems(s)| == |s|
  {
    if |s| > 0 {
      DistinctCard(s[1..]);
      assert Elems(s) == {s[0]} + Elems(s[1..]);
      assert s[0] !in Elems(s[1..]);
    }
  }

  lemma SubsetCard<T>(a: set<T>, b: set<T>)
    requires a <= b
    ensures |a| <= |b|
  {
    if a != {} {
      var x :| x in a;
      SubsetCard(a - {x}, b - {x});
    }
  }
}
