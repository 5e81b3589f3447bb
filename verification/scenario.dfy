/** Worked examples of the crawl: the inclusion filter's year boundary and
    a two-step crawl from one seed. */
module Scenario {
  import opened Wrappers
  import opened Seqs
  import opened PaperType
  import opened PaperDB
  import opened Crawler

  /** A paper with every projected attribute present. */
  function Complete(id: string, year: int): (p: Paper)
    ensures p.paperId == Some(id) && p.year == Some(year) && p.references.None?
  {
    Paper(Some(id), Some("title"), Some(year), Some("abstract"), Some(1), Some(1), Some(["Computer Science"]), None)
  }

  /** Year 1999 is rejected and 2000 accepted; a missing attribute is
      rejected whatever the year. */
  lemma FilterBoundary(p: Paper)
    requires p.paperId.Some? && p.title.Some? && p.abstractText.Some?
    requires p.referenceCount.Some? && p.citationCount.Some? && p.fieldsOfStudy.Some?
    ensures !CheckPaperFields(p.(year := Some(1999)))
    ensures CheckPaperFields(p.(year := Some(2000)))
    ensures !CheckPaperFields(p.(year := Some(2000), title := None))
    ensures !CheckPaperFields(p.(year := None))
  {
  }

  const A: Paper := Complete("A", 2010)
  const B: Paper := Complete("B", 2005)
  const C: Paper := Complete("C", 1998)

  lemma SeedA()
    ensures Seed([A]).queue == [Some("A")] && Seed([A]).unfinished == 1
    ensures Seed([A]).store.db == map[Some("A") := A]
  {
    var db := Seed([A]).store.db;
    assert Ids([A]) == [Some("A")];
    assert db.Keys == {Some("A")};
    assert db[Some("A")] in [A];
  }

  /** The first expansion in the scenario below: B is registered and
      queued, C is filtered out, A records both references. */
  lemma ExpandA(s0: Crawl)
    requires s0.queue == [Some("A")] && s0.unfinished == 1
    requires s0.store.db == map[Some("A") := A]
    ensures
      var s1 := Step(s0, Fetched([Citation(Some(B)), Citation(Some(C))]));
      && s1.queue == [Some("B")] && s1.unfinished == 1
      && s1.store.db.Keys == {Some("A"), Some("B")}
      && s1.store.db[Some("A")].references == Some([Some("B"), Some("C")])
      && s1.store.db[Some("B")] == B
  {
    ExpandAShape(s0);
    ExpandARecords(s0);
  }

  lemma ExpandAShape(s0: Crawl)
    requires s0.queue == [Some("A")] && s0.unfinished == 1
    requires s0.store.db == map[Some("A") := A]
    ensures
      var s1 := Step(s0, Fetched([Citation(Some(B)), Citation(Some(C))]));
      && s1.queue == [Some("B")] && s1.unfinished == 1
      && s1.store.db.Keys == {Some("A"), Some("B")}
  {
    CitedBC();
  }

  lemma ExpandARecords(s0: Crawl)
    requires s0.queue == [Some("A")] && s0.unfinished == 1
    requires s0.store.db == map[Some("A") := A]
    ensures
      var s1 := Step(s0, Fetched([Citation(Some(B)), Citation(Some(C))]));
      && Some("A") in s1.store.db && Some("B") in s1.store.db
      && s1.store.db[Some("A")].references == Some([Some("B"), Some("C")])
      && s1.store.db[Some("B")] == B
  {
    var ps := [B, C];
    CitedBC();
    var s1 := Step(s0, Fetched([Citation(Some(B)), Citation(Some(C))]));
    assert ExpandedStep(s0, ps, s1);
    assert s1.store.db[Some("B")] in ps;
  }

  lemma CitedBC()
    ensures CitedPapers([Citation(Some(B)), Citation(Some(C))]) == [B, C]
    ensures Succeeds(Fetched([Citation(Some(B)), Citation(Some(C))]))
    ensures PassingIds([B, C]) == [Some("B")]
    ensures FirstSeen({Some("A")}, [Some("B")]) == [Some("B")]
    ensures Ids([B, C]) == [Some("B"), Some("C")]
  {
    var ps := [B, C];
    assert CheckPaperFields(B) && !CheckPaperFields(C);
    assert PassingIds(ps[1..]) == [];
  }

  lemma ExpandB(s1: Crawl)
    requires s1.queue == [Some("B")] && s1.unfinished == 1
    ensures Step(s1, Fetched([])).queue == []
    ensures Step(s1, Fetched([])).unfinished == 0
    ensures Step(s1, Fetched([])).store.db.Keys == s1.store.db.Keys
  {
    assert CitedPapers([]) == [];
    assert PassingIds([]) == [];
  }

  /** Seed A; expanding A returns B (2005, complete) and C (1998). B is
      registered and queued, C is not; A's references are [B, C] as
      returned. Expanding B with no references drains the queue, leaving
      the store {A, B}. */
  lemma TwoStepCrawl()
    ensures
      var s1 := Step(Seed([A]), Fetched([Citation(Some(B)), Citation(Some(C))]));
      && s1.queue == [Some("B")]
      && s1.store.db.Keys == {Some("A"), Some("B")}
      && Some("C") !in s1.store.db
      && s1.store.db[Some("A")].references == Some([Some("B"), Some("C")])
      && var s2 := Step(s1, Fetched([]));
      && s2.queue == [] && s2.unfinished == 0
      && s2.store.db.Keys == {Some("A"), Some("B")}
  {
    SeedA();
    ExpandA(Seed([A]));
    var s1 := Step(Seed([A]), Fetched([Citation(Some(B)), Citation(Some(C))]));
    ExpandB(s1);
  }

  /** Seeding two different records under one id keeps the first: the
      second `check_and_add` finds the key and does not overwrite it. */
  lemma DuplicateSeedKeepsFirst(p1: Paper, p2: Paper)
    requires p1.paperId == p2.paperId
    ensures p1.paperId in Seed([p1, p2]).store.db
    ensures Seed([p1, p2]).store.db[p1.paperId] == p1
  {
    assert Ids([p1, p2])[0] == p1.paperId;
    FirstWithIdAt([p1, p2], p1.paperId, 0);
  }
}
