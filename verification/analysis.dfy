/** `get_result.py`: citation counts inside the crawled database, the
    ranking by count, the index assignment of the top papers and the
    citation edges among them. The database is read back from the JSON
    file, so its items come in file order. */
module Analysis {
  import opened Wrappers
  import opened Seqs
  import opened PaperType

  /** One `(key, record)` item of the database, in file order. */
  datatype Entry = Entry(key: PaperId, paper: Paper)

  /** One `(id, count)` item of the cite-count dict, in insertion order. */
  datatype Cited = Cited(id: PaperId, count: nat)

  /** A graph edge between two index numbers. */
  datatype Edge = Edge(from: nat, to: nat)

  function Keys(db: seq<Entry>): set<PaperId>
  {
    set e | e in db :: e.key
  }

  predicate DistinctKeys(db: seq<Entry>)
  {
    forall i, j :: 0 <= i < j < |db| ==> db[i].key != db[j].key
  }

  /** A record's reference ids; `references is None` contributes none. */
  function RefsOf(p: Paper): seq<PaperId>
  {
    if p.references.Some? then p.references.value else []
  }

  // ---------------------------------------------------------------------
  // Citation counting

  function IdsOf(cs: seq<Cited>): set<PaperId>
  {
    set c | c in cs :: c.id
  }

  predicate DistinctIds(cs: seq<Cited>)
  {
    forall i, j :: 0 <= i < j < |cs| ==> cs[i].id != cs[j].id
  }

  /** Shape of a count dict: each id once, each count at least 1. */
  predicate WellFormed(cs: seq<Cited>)
  {
    DistinctIds(cs) && forall i :: 0 <= i < |cs| ==> cs[i].count >= 1
  }

  /** `cite_count.get(k, 0)`. */
  function Lookup(cs: seq<Cited>, k: PaperId): nat
  {
    if |cs| == 0 then 0
    else if cs[0].id == k then cs[0].count
    else Lookup(cs[1..], k)
  }

  /** `cite_count[k] = cite_count.get(k, 0) + 1`: a new key goes last. */
  function Bump(cs: seq<Cited>, k: PaperId): seq<Cited>
  {
    if |cs| == 0 then [Cited(k, 1)]
    else if cs[0].id == k then [Cited(k, cs[0].count + 1)] + cs[1..]
    else [cs[0]] + Bump(cs[1..], k)
  }

  /** The inner loop over one record's references. */
  function TallyRefs(cs: seq<Cited>, refs: seq<PaperId>, keys: set<PaperId>): seq<Cited>
    decreases |refs|
  {
    if |refs| == 0 then cs
    else TallyRefs(if refs[0] in keys then Bump(cs, refs[0]) else cs, refs[1..], keys)
  }

  /** The outer loop over the records, in file order. */
  function TallyEntries(cs: seq<Cited>, es: seq<Entry>, keys: set<PaperId>): seq<Cited>
    decreases |es|
  {
    if |es| == 0 then cs
    else TallyEntries(TallyRefs(cs, RefsOf(es[0].paper), keys), es[1..], keys)
  }

  /** `get_cite_count`. */
  function CiteCount(db: seq<Entry>): seq<Cited>
  {
    TallyEntries([], db, Keys(db))
  }

  /** Reference definition: occurrences of `k` across the reference lists
      of the records `es`, duplicates counted. */
  function Occurrences(es: seq<Entry>, k: PaperId): nat
  {
    if |es| == 0 then 0 else Count(RefsOf(es[0].paper), k) + Occurrences(es[1..], k)
  }

  /** Number of ids in `refs` that lie in `keys`. */
  function CountIn(refs: seq<PaperId>, keys: set<PaperId>): nat
  {
    if |refs| == 0 then 0 else (if refs[0] in keys then 1 else 0) + CountIn(refs[1..], keys)
  }

  /** Number of reference occurrences in `es` whose id lies in `keys`. */
  function CitedTotal(es: seq<Entry>, keys: set<PaperId>): nat
  {
    if |es| == 0 then 0 else CountIn(RefsOf(es[0].paper), keys) + CitedTotal(es[1..], keys)
  }

  function Total(cs: seq<Cited>): nat
  {
    if |cs| == 0 then 0 else cs[0].count + Total(cs[1..])
  }

  /** The ids of a count dict, in insertion order. */
  function IdSeq(cs: seq<Cited>): seq<PaperId>
  {
    if |cs| == 0 then [] else [cs[0].id] + IdSeq(cs[1..])
  }

  /** Reference definition: every reference id of the records `es`, in
      file order, duplicates kept. */
  function AllRefs(es: seq<Entry>): seq<PaperId>
  {
    if |es| == 0 then [] else RefsOf(es[0].paper) + AllRefs(es[1..])
  }

  /** The ids of `refs` that lie in `keys`, in order. */
  function InKeys(refs: seq<PaperId>, keys: set<PaperId>): seq<PaperId>
  {
    if |refs| == 0 then []
    else (if refs[0] in keys then [refs[0]] else []) + InKeys(refs[1..], keys)
  }

  lemma {:induction false} LookupMember(cs: seq<Cited>, i: nat)
    requires DistinctIds(cs) && i < |cs|
    ensures Lookup(cs, cs[i].id) == cs[i].count
  {
    if i > 0 {
      assert cs[0].id != cs[i].id;
      assert cs[1..][i - 1] == cs[i];
      LookupMember(cs[1..], i - 1);
    }
  }

  lemma {:induction false} LookupAbsent(cs: seq<Cited>, k: PaperId)
    requires k !in IdsOf(cs)
    ensures Lookup(cs, k) == 0
  {
    if |cs| > 0 {
      assert cs[0] in cs;
      assert IdsOf(cs[1..]) <= IdsOf(cs) by {
        forall x | x in IdsOf(cs[1..]) ensures x in IdsOf(cs) {
          var c :| c in cs[1..] && c.id == x;
          assert c in cs;
        }
      }
      LookupAbsent(cs[1..], k);
    }
  }

  lemma {:induction false} IdsOfCons(c: Cited, cs: seq<Cited>)
    ensures IdsOf([c] + cs) == {c.id} + IdsOf(cs)
  {
    assert forall x :: x in [c] + cs <==> x == c || x in cs;
  }

  lemma {:induction false} BumpIds(cs: seq<Cited>, k: PaperId)
    ensures IdsOf(Bump(cs, k)) == IdsOf(cs) + {k}
  {
    if |cs| > 0 {
      assert cs == [cs[0]] + cs[1..];
      IdsOfCons(cs[0], cs[1..]);
      if cs[0].id == k {
        IdsOfCons(Cited(k, cs[0].count + 1), cs[1..]);
      } else {
        BumpIds(cs[1..], k);
        IdsOfCons(cs[0], Bump(cs[1..], k));
      }
    }
  }

  lemma {:induction false} BumpLookup(cs: seq<Cited>, k: PaperId, j: PaperId)
    ensures Lookup(Bump(cs, k), j) == Lookup(cs, j) + (if j == k then 1 else 0)
  {
    if |cs| == 0 {
      assert Bump(cs, k)[1..] == [];
    } else if cs[0].id == k {
      assert Bump(cs, k)[1..] == cs[1..];
    } else {
      BumpLookup(cs[1..], k, j);
      assert Bump(cs, k)[1..] == Bump(cs[1..], k);
    }
  }

  lemma {:induction false} BumpTotal(cs: seq<Cited>, k: PaperId)
    ensures Total(Bump(cs, k)) == Total(cs) + 1
  {
    if |cs| == 0 {
      assert Bump(cs, k)[1..] == [];
    } else if cs[0].id == k {
      assert Bump(cs, k)[1..] == cs[1..];
    } else {
      BumpTotal(cs[1..], k);
      assert Bump(cs, k)[1..] == Bump(cs[1..], k);
    }
  }

  lemma {:induction false} WellFormedCons(c: Cited, cs: seq<Cited>)
    ensures WellFormed([c] + cs) <==> c.count >= 1 && c.id !in IdsOf(cs) && WellFormed(cs)
  {
    var r := [c] + cs;
    DistinctIdsCons(c, cs);
    assert r[0] == c;
    assert forall i :: 0 <= i < |cs| ==> r[i + 1] == cs[i];
    assert (forall i :: 0 <= i < |r| ==> r[i].count >= 1) <==>
           c.count >= 1 && (forall i :: 0 <= i < |cs| ==> cs[i].count >= 1);
  }

  lemma {:induction false} BumpWellFormed(cs: seq<Cited>, k: PaperId)
    requires WellFormed(cs)
    ensures WellFormed(Bump(cs, k))
  {
    if |cs| == 0 {
      WellFormedCons(Cited(k, 1), []);
    } else {
      assert cs == [cs[0]] + cs[1..];
      WellFormedCons(cs[0], cs[1..]);
      if cs[0].id == k {
        WellFormedCons(Cited(k, cs[0].count + 1), cs[1..]);
      } else {
        BumpWellFormed(cs[1..], k);
        BumpIds(cs[1..], k);
        WellFormedCons(cs[0], Bump(cs[1..], k));
      }
    }
  }

  lemma {:induction false} IdSeqAppend(a: seq<Cited>, b: seq<Cited>)
    ensures IdSeq(a + b) == IdSeq(a) + IdSeq(b)
    decreases |a|
  {
    if |a| == 0 {
      assert a + b == b;
    } else {
      assert (a + b)[0] == a[0];
      assert (a + b)[1..] == a[1..] + b;
      IdSeqAppend(a[1..], b);
    }
  }

  lemma {:induction false} IdSeqElems(cs: seq<Cited>)
    ensures Elems(IdSeq(cs)) == IdsOf(cs)
  {
    if |cs| > 0 {
      IdSeqElems(cs[1..]);
      assert cs == [cs[0]] + cs[1..];
      IdsOfCons(cs[0], cs[1..]);
      assert Elems([cs[0].id] + IdSeq(cs[1..])) == {cs[0].id} + Elems(IdSeq(cs[1..]));
    }
  }

  lemma {:induction false} InKeysAppend(a: seq<PaperId>, b: seq<PaperId>, keys: set<PaperId>)
    ensures InKeys(a + b, keys) == InKeys(a, keys) + InKeys(b, keys)
    decreases |a|
  {
    if |a| == 0 {
      assert a + b == b;
    } else {
      var h := if a[0] in keys then [a[0]] else [];
      assert (a + b)[0] == a[0];
      assert (a + b)[1..] == a[1..] + b;
      assert InKeys(a + b, keys) == h + InKeys(a[1..] + b, keys);
      assert InKeys(a, keys) == h + InKeys(a[1..], keys);
      InKeysAppend(a[1..], b, keys);
    }
  }

  /** A key not yet in the dict is appended with count 1. */
  lemma {:induction false} BumpAppends(cs: seq<Cited>, k: PaperId)
    requires k !in IdsOf(cs)
    ensures Bump(cs, k) == cs + [Cited(k, 1)]
  {
    if |cs| > 0 {
      assert cs == [cs[0]] + cs[1..];
      IdsOfCons(cs[0], cs[1..]);
      BumpAppends(cs[1..], k);
    }
  }

  /** A key already in the dict keeps its position, and so does every
      other key. */
  lemma {:induction false} BumpInPlace(cs: seq<Cited>, k: PaperId)
    requires k in IdsOf(cs)
    ensures IdSeq(Bump(cs, k)) == IdSeq(cs)
  {
    if |cs| > 0 {
      assert cs == [cs[0]] + cs[1..];
      IdsOfCons(cs[0], cs[1..]);
      if cs[0].id == k {
        assert Bump(cs, k)[1..] == cs[1..];
      } else {
        BumpInPlace(cs[1..], k);
        assert Bump(cs, k)[1..] == Bump(cs[1..], k);
      }
    }
  }

  lemma BumpSpec(cs: seq<Cited>, k: PaperId)
    requires WellFormed(cs)
    ensures WellFormed(Bump(cs, k))
    ensures IdsOf(Bump(cs, k)) == IdsOf(cs) + {k}
    ensures forall j :: Lookup(Bump(cs, k), j) == Lookup(cs, j) + (if j == k then 1 else 0)
    ensures Total(Bump(cs, k)) == Total(cs) + 1
    ensures k !in IdsOf(cs) ==> Bump(cs, k) == cs + [Cited(k, 1)]
    ensures k in IdsOf(cs) ==> IdSeq(Bump(cs, k)) == IdSeq(cs)
  {
    BumpWellFormed(cs, k);
    BumpIds(cs, k);
    BumpTotal(cs, k);
    if k in IdsOf(cs) {
      BumpInPlace(cs, k);
    } else {
      BumpAppends(cs, k);
    }
    forall j ensures Lookup(Bump(cs, k), j) == Lookup(cs, j) + (if j == k then 1 else 0) {
      BumpLookup(cs, k, j);
    }
  }

  lemma {:induction false} TallyRefsSpec(cs: seq<Cited>, refs: seq<PaperId>, keys: set<PaperId>)
    requires WellFormed(cs)
    ensures WellFormed(TallyRefs(cs, refs, keys))
    ensures IdsOf(TallyRefs(cs, refs, keys)) <= IdsOf(cs) + keys
    ensures forall j :: Lookup(TallyRefs(cs, refs, keys), j) ==
                        Lookup(cs, j) + (if j in keys then Count(refs, j) else 0)
    ensures Total(TallyRefs(cs, refs, keys)) == Total(cs) + CountIn(refs, keys)
    decreases |refs|
  {
    if |refs| > 0 {
      var cs1 := if refs[0] in keys then Bump(cs, refs[0]) else cs;
      if refs[0] in keys {
        BumpWellFormed(cs, refs[0]);
        BumpIds(cs, refs[0]);
        BumpTotal(cs, refs[0]);
        forall j ensures Lookup(cs1, j) == Lookup(cs, j) + (if j == refs[0] then 1 else 0) {
          BumpLookup(cs, refs[0], j);
        }
      }
      TallyRefsSpec(cs1, refs[1..], keys);
    }
  }

  lemma {:induction false} TallyEntriesSpec(cs: seq<Cited>, es: seq<Entry>, keys: set<PaperId>)
    requires WellFormed(cs)
    ensures WellFormed(TallyEntries(cs, es, keys))
    ensures IdsOf(TallyEntries(cs, es, keys)) <= IdsOf(cs) + keys
    ensures forall j :: Lookup(TallyEntries(cs, es, keys), j) ==
                        Lookup(cs, j) + (if j in keys then Occurrences(es, j) else 0)
    ensures Total(TallyEntries(cs, es, keys)) == Total(cs) + CitedTotal(es, keys)
    decreases |es|
  {
    if |es| > 0 {
      var cs1 := TallyRefs(cs, RefsOf(es[0].paper), keys);
      TallyRefsSpec(cs, RefsOf(es[0].paper), keys);
      TallyEntriesSpec(cs1, es[1..], keys);
    }
  }

  /** One bump, seen through the id order: a new key is appended, a known
      key changes nothing. */
  lemma BumpOrder(cs: seq<Cited>, k: PaperId)
    ensures IdSeq(Bump(cs, k)) == IdSeq(cs) + (if k in IdsOf(cs) then [] else [k])
    ensures IdsOf(Bump(cs, k)) == IdsOf(cs) + {k}
  {
    BumpIds(cs, k);
    if k in IdsOf(cs) {
      BumpInPlace(cs, k);
      assert IdSeq(cs) + [] == IdSeq(cs);
    } else {
      BumpAppends(cs, k);
      IdSeqAppend(cs, [Cited(k, 1)]);
      assert IdSeq([Cited(k, 1)]) == [k];
    }
  }

  /** The inner loop appends the in-database references not yet counted,
      each at its first occurrence; ids already present keep their
      places. */
  lemma {:induction false} TallyRefsOrder(cs: seq<Cited>, refs: seq<PaperId>, keys: set<PaperId>)
    ensures IdSeq(TallyRefs(cs, refs, keys)) ==
            IdSeq(cs) + FirstSeen(IdsOf(cs), InKeys(refs, keys))
    decreases |refs|
  {
    if |refs| > 0 {
      var r0, rest := refs[0], InKeys(refs[1..], keys);
      if r0 !in keys {
        assert InKeys(refs, keys) == rest;
        TallyRefsOrder(cs, refs[1..], keys);
      } else {
        var cs1 := Bump(cs, r0);
        BumpOrder(cs, r0);
        assert InKeys(refs, keys) == [r0] + rest;
        FirstSeenCons(IdsOf(cs), r0, rest);
        TallyRefsOrder(cs1, refs[1..], keys);
        assert TallyRefs(cs, refs, keys) == TallyRefs(cs1, refs[1..], keys);
        if r0 in IdsOf(cs) {
          assert IdSeq(cs1) == IdSeq(cs) && IdsOf(cs1) == IdsOf(cs);
        } else {
          var later := FirstSeen(IdsOf(cs1), rest);
          assert IdSeq(cs1) == IdSeq(cs) + [r0];
          assert FirstSeen(IdsOf(cs), InKeys(refs, keys)) == [r0] + later;
          assert IdSeq(cs1) + later == IdSeq(cs) + ([r0] + later);
        }
      }
    }
  }

  /** The ids after the inner loop: the old ones plus the in-database
      references. */
  lemma TallyRefsIds(cs: seq<Cited>, refs: seq<PaperId>, keys: set<PaperId>)
    ensures IdsOf(TallyRefs(cs, refs, keys)) == IdsOf(cs) + Elems(InKeys(refs, keys))
  {
    var added := FirstSeen(IdsOf(cs), InKeys(refs, keys));
    TallyRefsOrder(cs, refs, keys);
    IdSeqElems(cs);
    IdSeqElems(TallyRefs(cs, refs, keys));
    FirstSeenSpec(IdsOf(cs), InKeys(refs, keys));
    assert Elems(IdSeq(cs) + added) == Elems(IdSeq(cs)) + Elems(added);
  }

  /** The outer loop: ids are listed in the order their first in-database
      reference occurs across the records. */
  lemma {:induction false} TallyEntriesOrder(cs: seq<Cited>, es: seq<Entry>, keys: set<PaperId>)
    ensures IdSeq(TallyEntries(cs, es, keys)) ==
            IdSeq(cs) + FirstSeen(IdsOf(cs), InKeys(AllRefs(es), keys))
    decreases |es|
  {
    if |es| > 0 {
      var refs := RefsOf(es[0].paper);
      var a, b := InKeys(refs, keys), InKeys(AllRefs(es[1..]), keys);
      var cs1 := TallyRefs(cs, refs, keys);
      TallyRefsOrder(cs, refs, keys);
      TallyRefsIds(cs, refs, keys);
      TallyEntriesOrder(cs1, es[1..], keys);
      InKeysAppend(refs, AllRefs(es[1..]), keys);
      FirstSeenAppend(IdsOf(cs), a, b);
      assert InKeys(AllRefs(es), keys) == a + b;
      assert TallyEntries(cs, es, keys) == TallyEntries(cs1, es[1..], keys);
    }
  }

  /** The ids of `get_cite_count`'s dict, in order: the in-database
      reference ids in the order of their first occurrence. */
  lemma CiteCountOrder(db: seq<Entry>)
    ensures IdSeq(CiteCount(db)) == FirstSeen({}, InKeys(AllRefs(db), Keys(db)))
  {
    TallyEntriesOrder([], db, Keys(db));
    assert IdsOf([]) == {};
  }

  /** `get_cite_count` counts, for every database key, how often it occurs
      in the reference lists (duplicates included); ids outside the
      database and records without references contribute nothing; each
      listed id is a key cited at least once, listed once; and the counts
      add up to the number of in-database reference occurrences; the ids
      are listed in the order of their first in-database reference. */
  lemma CiteCountCorrect(db: seq<Entry>)
    ensures WellFormed(CiteCount(db))
    ensures forall c <- CiteCount(db) :: c.id in Keys(db) && c.count == Occurrences(db, c.id)
    ensures forall k :: k in Keys(db) && Occurrences(db, k) >= 1 ==> k in IdsOf(CiteCount(db))
    ensures forall k :: k !in Keys(db) ==> Lookup(CiteCount(db), k) == 0
    ensures Total(CiteCount(db)) == CitedTotal(db, Keys(db))
    ensures IdSeq(CiteCount(db)) == FirstSeen({}, InKeys(AllRefs(db), Keys(db)))
  {
    var r := CiteCount(db);
    TallyEntriesSpec([], db, Keys(db));
    CiteCountOrder(db);
    forall c | c in r ensures c.id in Keys(db) && c.count == Occurrences(db, c.id) {
      var i :| 0 <= i < |r| && r[i] == c;
      LookupMember(r, i);
      assert c.id in IdsOf(r);
    }
    forall k | k in Keys(db) && Occurrences(db, k) >= 1 ensures k in IdsOf(r) {
      if k !in IdsOf(r) {
        LookupAbsent(r, k);
      }
    }
  }

  // ---------------------------------------------------------------------
  // Ranking: `sorted(items, key=count, reverse=True)[:threshold]`

  predicate NonIncreasing(s: seq<Cited>)
  {
    forall i, j :: 0 <= i < j < |s| ==> s[i].count >= s[j].count
  }

  /** The items with count `n`, in order: a sort is stable exactly when it
      keeps every such subsequence. */
  function WithCount(s: seq<Cited>, n: nat): seq<Cited>
  {
    if |s| == 0 then []
    else (if s[0].count == n then [s[0]] else []) + WithCount(s[1..], n)
  }

  /** Insert `x` into a non-increasing list ahead of every item whose
      count is not larger: ahead of its ties. */
  function Insert(x: Cited, s: seq<Cited>): seq<Cited>
  {
    if |s| == 0 then [x]
    else if s[0].count > x.count then [s[0]] + Insert(x, s[1..])
    else [x] + s
  }

  /** Stable sort by count, largest first. */
  function SortByCount(s: seq<Cited>): seq<Cited>
  {
    if |s| == 0 then [] else Insert(s[0], SortByCount(s[1..]))
  }

  lemma {:induction false} InsertMultiset(x: Cited, s: seq<Cited>)
    ensures multiset(Insert(x, s)) == multiset(s) + multiset{x}
  {
    if |s| > 0 && s[0].count > x.count {
      InsertMultiset(x, s[1..]);
      assert s == [s[0]] + s[1..];
    }
  }

  /** Every item of `s` has count at most `b`. */
  predicate Bounded(s: seq<Cited>, b: nat)
  {
    forall i :: 0 <= i < |s| ==> s[i].count <= b
  }

  lemma {:induction false} SortedCons(c: Cited, t: seq<Cited>)
    requires NonIncreasing(t) && Bounded(t, c.count)
    ensures NonIncreasing([c] + t)
  {
    var r := [c] + t;
    forall i, j | 0 <= i < j < |r| ensures r[i].count >= r[j].count {
      assert r[j] == t[j - 1];
      if i > 0 { assert r[i] == t[i - 1]; }
    }
  }

  lemma {:induction false} InsertBounded(x: Cited, s: seq<Cited>, b: nat)
    requires Bounded(s, b) && x.count <= b
    ensures Bounded(Insert(x, s), b)
  {
    var r := Insert(x, s);
    if |s| > 0 && s[0].count > x.count {
      InsertBounded(x, s[1..], b);
      assert forall i :: 1 <= i < |r| ==> r[i] == Insert(x, s[1..])[i - 1];
    } else if |s| > 0 {
      assert forall i :: 1 <= i < |r| ==> r[i] == s[i - 1];
    }
  }

  lemma {:induction false} InsertSorted(x: Cited, s: seq<Cited>)
    requires NonIncreasing(s)
    ensures NonIncreasing(Insert(x, s))
  {
    if |s| == 0 {
    } else if s[0].count > x.count {
      InsertSorted(x, s[1..]);
      assert Bounded(s[1..], s[0].count) by {
        assert forall i :: 0 <= i < |s[1..]| ==> s[1..][i] == s[i + 1];
      }
      InsertBounded(x, s[1..], s[0].count);
      SortedCons(s[0], Insert(x, s[1..]));
    } else {
      assert Bounded(s, x.count);
      SortedCons(x, s);
    }
  }

  lemma {:induction false} WithCountCons(c: Cited, s: seq<Cited>, n: nat)
    ensures WithCount([c] + s, n) == (if c.count == n then [c] else []) + WithCount(s, n)
  {
    assert ([c] + s)[1..] == s;
  }

  lemma {:induction false} InsertWithCount(x: Cited, s: seq<Cited>, n: nat)
    ensures WithCount(Insert(x, s), n) == (if x.count == n then [x] else []) + WithCount(s, n)
  {
    if |s| == 0 {
      WithCountCons(x, [], n);
    } else if s[0].count > x.count {
      InsertWithCount(x, s[1..], n);
      WithCountCons(s[0], Insert(x, s[1..]), n);
      assert s == [s[0]] + s[1..];
      WithCountCons(s[0], s[1..], n);
    } else {
      WithCountCons(x, s, n);
    }
  }

  lemma {:induction false} InsertIds(x: Cited, s: seq<Cited>)
    ensures IdsOf(Insert(x, s)) == IdsOf(s) + {x.id}
    ensures DistinctIds(s) && x.id !in IdsOf(s) ==> DistinctIds(Insert(x, s))
  {
    if |s| == 0 {
      IdsOfCons(x, []);
    } else if s[0].count > x.count {
      InsertIds(x, s[1..]);
      assert s == [s[0]] + s[1..];
      IdsOfCons(s[0], s[1..]);
      IdsOfCons(s[0], Insert(x, s[1..]));
      DistinctIdsCons(s[0], s[1..]);
      DistinctIdsCons(s[0], Insert(x, s[1..]));
    } else {
      IdsOfCons(x, s);
      DistinctIdsCons(x, s);
    }
  }

  lemma {:induction false} DistinctIdsCons(c: Cited, cs: seq<Cited>)
    ensures DistinctIds([c] + cs) <==> c.id !in IdsOf(cs) && DistinctIds(cs)
  {
    var r := [c] + cs;
    assert r[0] == c;
    assert forall i :: 0 <= i < |cs| ==> r[i + 1] == cs[i];
    if DistinctIds(r) {
      forall d | d in cs ensures d.id != c.id {
        var i :| 0 <= i < |cs| && cs[i] == d;
        assert r[i + 1] == d;
      }
      forall i, j | 0 <= i < j < |cs| ensures cs[i].id != cs[j].id {
        assert r[i + 1] == cs[i] && r[j + 1] == cs[j];
      }
    }
    if c.id !in IdsOf(cs) && DistinctIds(cs) {
      forall i, j | 0 <= i < j < |r| ensures r[i].id != r[j].id {
        if i == 0 {
          assert cs[j - 1] in cs;
        } else {
          assert r[i] == cs[i - 1] && r[j] == cs[j - 1];
        }
      }
    }
  }

  lemma {:induction false} SortSorted(s: seq<Cited>)
    ensures NonIncreasing(SortByCount(s))
  {
    if |s| > 0 {
      SortSorted(s[1..]);
      InsertSorted(s[0], SortByCount(s[1..]));
    }
  }

  lemma {:induction false} SortMultiset(s: seq<Cited>)
    ensures multiset(SortByCount(s)) == multiset(s)
  {
    if |s| > 0 {
      SortMultiset(s[1..]);
      InsertMultiset(s[0], SortByCount(s[1..]));
      assert s == [s[0]] + s[1..];
    }
  }

  lemma {:induction false} SortWithCount(s: seq<Cited>, n: nat)
    ensures WithCount(SortByCount(s), n) == WithCount(s, n)
  {
    if |s| > 0 {
      SortWithCount(s[1..], n);
      InsertWithCount(s[0], SortByCount(s[1..]), n);
      assert s == [s[0]] + s[1..];
      WithCountCons(s[0], s[1..], n);
    }
  }

  lemma {:induction false} SortIds(s: seq<Cited>)
    ensures IdsOf(SortByCount(s)) == IdsOf(s)
    ensures DistinctIds(s) ==> DistinctIds(SortByCount(s))
  {
    if |s| > 0 {
      SortIds(s[1..]);
      InsertIds(s[0], SortByCount(s[1..]));
      assert s == [s[0]] + s[1..];
      IdsOfCons(s[0], s[1..]);
      DistinctIdsCons(s[0], s[1..]);
    }
  }

  /** The insertion sort is a stable descending sort by count: sorted,
      a permutation, equal counts in input order, same id set. */
  lemma SortByCountSpec(s: seq<Cited>)
    ensures NonIncreasing(SortByCount(s))
    ensures multiset(SortByCount(s)) == multiset(s)
    ensures forall n :: WithCount(SortByCount(s), n) == WithCount(s, n)
    ensures IdsOf(SortByCount(s)) == IdsOf(s)
    ensures DistinctIds(s) ==> DistinctIds(SortByCount(s))
  {
    SortSorted(s);
    SortMultiset(s);
    forall n ensures WithCount(SortByCount(s), n) == WithCount(s, n) {
      SortWithCount(s, n);
    }
    SortIds(s);
  }

  lemma {:induction false} WithCountPrefix(s: seq<Cited>, m: nat, n: nat)
    requires m <= |s|
    ensures WithCount(s[..m], n) <= WithCount(s, n)
  {
    if m > 0 {
      assert s[..m][1..] == s[1..][..m - 1];
      WithCountPrefix(s[1..], m - 1, n);
      assert WithCount(s[..m], n) ==
        (if s[0].count == n then [s[0]] else []) + WithCount(s[..m][1..], n);
    }
  }

  function Min(a: nat, b: nat): nat
  {
    if a <= b then a else b
  }

  /** The top `threshold` items by count. */
  function Rank(cs: seq<Cited>, threshold: nat): seq<Cited>
  {
    var sorted := SortByCount(cs);
    sorted[..Min(threshold, |sorted|)]
  }

  lemma RankLength(cs: seq<Cited>, threshold: nat)
    ensures |SortByCount(cs)| == |cs|
    ensures |Rank(cs, threshold)| == Min(threshold, |cs|)
  {
    SortMultiset(cs);
    assert |multiset(SortByCount(cs))| == |multiset(cs)|;
  }

  lemma RankFromInput(cs: seq<Cited>, threshold: nat)
    ensures forall c <- Rank(cs, threshold) :: c in cs
  {
    var sorted := SortByCount(cs);
    SortMultiset(cs);
    forall c | c in Rank(cs, threshold) ensures c in cs {
      assert c in multiset(sorted);
    }
  }

  lemma RankTop(cs: seq<Cited>, threshold: nat)
    ensures forall c, d :: c in cs && c !in Rank(cs, threshold) && d in Rank(cs, threshold) ==>
      d.count >= c.count
  {
    var sorted := SortByCount(cs);
    SortSorted(cs);
    SortMultiset(cs);
    var r := Rank(cs, threshold);
    forall c, d | c in cs && c !in r && d in r ensures d.count >= c.count {
      assert c in multiset(sorted);
      var i :| 0 <= i < |sorted| && sorted[i] == c;
      var j :| 0 <= j < |r| && r[j] == d;
      assert sorted[j] == d;
    }
  }

  lemma RankStable(cs: seq<Cited>, threshold: nat, n: nat)
    ensures WithCount(Rank(cs, threshold), n) <= WithCount(cs, n)
  {
    var sorted := SortByCount(cs);
    SortWithCount(cs, n);
    WithCountPrefix(sorted, Min(threshold, |sorted|), n);
  }

  lemma RankDistinct(cs: seq<Cited>, threshold: nat)
    ensures DistinctIds(cs) ==> DistinctIds(Rank(cs, threshold))
  {
    var sorted := SortByCount(cs);
    var r := Rank(cs, threshold);
    SortIds(cs);
    if DistinctIds(cs) {
      forall i, j | 0 <= i < j < |r| ensures r[i].id != r[j].id {
        assert r[i] == sorted[i] && r[j] == sorted[j];
      }
    }
  }

  /** `sorted(..., reverse=True)[:threshold]`: min(threshold, n) items,
      largest count first, taken from the input; every item left out has
      no larger count than any item kept; among equal counts the input
      order is kept; ids stay distinct. */
  lemma RankCorrect(cs: seq<Cited>, threshold: nat)
    ensures |Rank(cs, threshold)| == Min(threshold, |cs|)
    ensures NonIncreasing(Rank(cs, threshold))
    ensures forall c <- Rank(cs, threshold) :: c in cs
    ensures forall c, d :: c in cs && c !in Rank(cs, threshold) && d in Rank(cs, threshold) ==>
      d.count >= c.count
    ensures forall n :: WithCount(Rank(cs, threshold), n) <= WithCount(cs, n)
    ensures DistinctIds(cs) ==> DistinctIds(Rank(cs, threshold))
  {
    RankLength(cs, threshold);
    SortSorted(cs);
    RankFromInput(cs, threshold);
    RankTop(cs, threshold);
    forall n ensures WithCount(Rank(cs, threshold), n) <= WithCount(cs, n) {
      RankStable(cs, threshold, n);
    }
    RankDistinct(cs, threshold);
  }

  // ---------------------------------------------------------------------
  // Top set, indices and edges

  /** `paper_db[k]`: the record filed under `k`. */
  function Find(db: seq<Entry>, k: PaperId): (p: Paper)
    requires k in Keys(db)
    ensures Entry(k, p) in db
  {
    if db[0].key == k then db[0].paper
    else
      assert db[0] in db;
      assert k in Keys(db[1..]) by {
        var e :| e in db && e.key == k;
        var i :| 0 <= i < |db| && db[i] == e;
        assert i > 0;
        assert db[1..][i - 1] == e;
      }
      Find(db[1..], k)
  }

  /** `{k: paper_db[k] for k, v in top_citations}`. */
  function TopEntries(db: seq<Entry>, top: seq<Cited>): (r: seq<Entry>)
    requires forall c <- top :: c.id in Keys(db)
    ensures |r| == |top|
    ensures forall i :: 0 <= i < |top| ==> r[i].key == top[i].id && r[i] in db
  {
    if |top| == 0 then []
    else
      assert top[0] in top;
      [Entry(top[0].id, Find(db, top[0].id))] + TopEntries(db, top[1..])
  }

  /** The `enumerate(top_citations_db.values())` loop that sets each top
      paper's `index`: indices 0..n-1 in ranked order, one per paper. */
  method AssignIndices(top: seq<Entry>) returns (index: map<PaperId, nat>)
    requires DistinctKeys(top)
    ensures index.Keys == Keys(top)
    ensures forall i :: 0 <= i < |top| ==> index[top[i].key] == i
    ensures forall k :: k in index ==> index[k] < |top| && top[index[k]].key == k
  {
    index := map[];
    var i := 0;
    while i < |top|
      invariant 0 <= i <= |top|
      invariant index.Keys == set j | 0 <= j < i :: top[j].key
      invariant forall j :: 0 <= j < i ==> index[top[j].key] == j
      invariant forall k :: k in index ==> index[k] < i && top[index[k]].key == k
    {
      index := index[top[i].key := i];
      i := i + 1;
    }
    assert Keys(top) == set j | 0 <= j < |top| :: top[j].key by {
      forall k | k in Keys(top) ensures k in set j | 0 <= j < |top| :: top[j].key {
        var e :| e in top && e.key == k;
        var j :| 0 <= j < |top| && top[j] == e;
      }
    }
  }

  /** The edges of one top paper: one per reference into the top set. */
  function RefEdges(from: nat, refs: seq<PaperId>, index: map<PaperId, nat>): seq<Edge>
  {
    if |refs| == 0 then []
    else (if refs[0] in index then [Edge(from, index[refs[0]])] else []) + RefEdges(from, refs[1..], index)
  }

  /** The edge loop of both renderers, from the `i`-th top paper on; the
      top set is `index.Keys`. */
  function EdgesFrom(top: seq<Entry>, index: map<PaperId, nat>, i: nat): seq<Edge>
    requires forall j :: 0 <= j < |top| ==> top[j].key in index
    decreases |top| - i
  {
    if i >= |top| then []
    else RefEdges(index[top[i].key], RefsOf(top[i].paper), index) + EdgesFrom(top, index, i + 1)
  }

  lemma {:induction false} RefEdgesSpec(from: nat, refs: seq<PaperId>, index: map<PaperId, nat>, e: Edge)
    ensures e in RefEdges(from, refs, index) <==>
      e.from == from && exists r :: r in refs && r in index && index[r] == e.to
  {
    if |refs| > 0 {
      RefEdgesSpec(from, refs[1..], index, e);
      assert forall r :: r in refs <==> r == refs[0] || r in refs[1..];
    }
  }

  /** Ties an edge set to its index map: `index` numbers `top` in order. */
  predicate Numbered(top: seq<Entry>, index: map<PaperId, nat>)
  {
    && index.Keys == Keys(top)
    && (forall i :: 0 <= i < |top| ==> index[top[i].key] == i)
    && (forall k :: k in index ==> index[k] < |top| && top[index[k]].key == k)
  }

  lemma {:induction false} EdgesFromSpec(top: seq<Entry>, index: map<PaperId, nat>, i: nat, e: Edge)
    requires Numbered(top, index)
    ensures e in EdgesFrom(top, index, i) <==>
      i <= e.from < |top| && e.to < |top| && top[e.to].key in RefsOf(top[e.from].paper)
    decreases |top| - i
  {
    assert forall j :: 0 <= j < |top| ==> top[j].key in index by {
      forall j | 0 <= j < |top| ensures top[j].key in index {
        assert top[j] in top;
      }
    }
    if i < |top| {
      EdgesFromSpec(top, index, i + 1, e);
      RefEdgesSpec(i, RefsOf(top[i].paper), index, e);
      if e.from == i && e.to < |top| && top[e.to].key in RefsOf(top[i].paper) {
        assert top[e.to].key in index && index[top[e.to].key] == e.to;
      }
    }
  }

  /** The graph part of `visualize`: rank the cite counts, give the top
      papers indices 0..n-1 in ranked order, and draw an edge i -> j
      exactly when paper i's references contain the id of paper j; no
      edge leaves the top set. */
  method TopGraph(db: seq<Entry>, threshold: nat)
    returns (top: seq<Entry>, index: map<PaperId, nat>, edges: seq<Edge>)
    ensures |top| == |Rank(CiteCount(db), threshold)| == Min(threshold, |CiteCount(db)|)
    ensures forall i :: 0 <= i < |top| ==>
      top[i].key == Rank(CiteCount(db), threshold)[i].id && top[i] in db
    ensures Keys(top) == index.Keys && forall i :: 0 <= i < |top| ==> index[top[i].key] == i
    ensures forall k :: k in index ==> index[k] < |top|
    ensures forall e :: e in edges <==>
      e.from < |top| && e.to < |top| && top[e.to].key in RefsOf(top[e.from].paper)
  {
    var counts := CiteCount(db);
    CiteCountCorrect(db);
    RankCorrect(counts, threshold);
    var ranked := Rank(counts, threshold);
    top := TopEntries(db, ranked);
    assert DistinctKeys(top) by {
      forall i, j | 0 <= i < j < |top| ensures top[i].key != top[j].key {
        assert top[i].key == ranked[i].id && top[j].key == ranked[j].id;
      }
    }
    index := AssignIndices(top);
    edges := EdgesFrom(top, index, 0);
    forall e ensures e in edges <==>
      e.from < |top| && e.to < |top| && top[e.to].key in RefsOf(top[e.from].paper)
    {
      EdgesFromSpec(top, index, 0, e);
    }
  }
}
