/** What holds of every state the crawl can reach: the queue counter
    matches the queue, every queued id is registered, every record sits
    under its own id, the snapshot cadence, keys are never removed, and
    (for distinct seeds) no paper is expanded twice. */
module CrawlInvariants {
  import opened Wrappers
  import opened Seqs
  import opened PaperType
  import opened PaperDB
  import opened Crawler

  predicate Consistent(s: Crawl)
  {
    && s.unfinished == |s.queue|
    && (forall i :: 0 <= i < |s.queue| ==> s.queue[i] in s.store.db)
    && (forall k :: k in s.store.db ==> s.store.db[k].paperId == k)
    && Cadence(s.store)
  }

  /** A pushed id was never in the store before the step. */
  lemma StepPushesOnlyNew(s: Crawl, fetch: Fetch)
    requires |s.queue| > 0 && Succeeds(fetch)
    ensures forall i :: |s.queue| - 1 <= i < |Step(s, fetch).queue| ==>
      Step(s, fetch).queue[i] !in s.store.db && Step(s, fetch).queue[i] in Step(s, fetch).store.db
  {
    var ps := CitedPapers(fetch.refs);
    var pushed := FirstSeen(s.store.db.Keys, PassingIds(ps));
    FirstSeenSpec(s.store.db.Keys, PassingIds(ps));
    var r := Step(s, fetch);
    forall i | |s.queue| - 1 <= i < |r.queue|
      ensures r.queue[i] !in s.store.db && r.queue[i] in r.store.db
    {
      assert r.queue[i] == pushed[i - (|s.queue| - 1)];
      assert r.queue[i] in Elems(pushed);
    }
  }

  lemma {:induction false} SeedConsistent(papers: seq<Paper>)
    ensures Consistent(Seed(papers))
  {
    var s := Seed(papers);
    forall i | 0 <= i < |s.queue| ensures s.queue[i] in s.store.db {
      assert s.queue[i] in Elems(Ids(papers));
    }
  }

  lemma StepConsistent(s: Crawl, fetch: Fetch)
    requires Consistent(s) && |s.queue| > 0
    ensures Consistent(Step(s, fetch))
  {
    var r := Step(s, fetch);
    if Succeeds(fetch) {
      var ps := CitedPapers(fetch.refs);
      StepPushesOnlyNew(s, fetch);
      forall i | 0 <= i < |r.queue| ensures r.queue[i] in r.store.db {
        if i < |s.queue| - 1 {
          assert r.queue[i] == s.queue[i + 1];
        }
      }
    } else {
      forall i | 0 <= i < |r.queue| ensures r.queue[i] in r.store.db {
        if i < |s.queue| - 1 {
          assert r.queue[i] == s.queue[i + 1];
        } else {
          assert r.queue[i] == s.queue[0];
        }
      }
    }
  }

  lemma {:induction false} RunConsistent(s: Crawl, fetches: seq<Fetch>)
    requires Consistent(s)
    ensures Consistent(Run(s, fetches))
    decreases |fetches|
  {
    if |fetches| > 0 && |s.queue| > 0 {
      StepConsistent(s, fetches[0]);
      RunConsistent(Step(s, fetches[0]), fetches[1..]);
    }
  }

  /** `t` is a later state of `s`'s store: no key removed, no record
      changed except in its `references`, no call uncounted. */
  predicate Grows(s: Store, t: Store)
  {
    && s.db.Keys <= t.db.Keys
    && (forall k :: k in s.db ==> t.db[k].(references := s.db[k].references) == s.db[k])
    && s.calls <= t.calls
  }

  lemma StepGrows(s: Crawl, fetch: Fetch)
    requires |s.queue| > 0
    ensures Grows(s.store, Step(s, fetch).store)
  {
  }

  lemma {:induction false} RunGrows(s: Crawl, fetches: seq<Fetch>)
    ensures Grows(s.store, Run(s, fetches).store)
    decreases |fetches|
  {
    if |fetches| > 0 && |s.queue| > 0 {
      var s1 := Step(s, fetches[0]);
      StepGrows(s, fetches[0]);
      RunGrows(s1, fetches[1..]);
      var t := Run(s1, fetches[1..]).store;
      forall k | k in s.store.db
        ensures t.db[k].(references := s.store.db[k].references) == s.store.db[k]
      {
        assert t.db[k].(references := s1.store.db[k].references) == s1.store.db[k];
      }
    }
  }

  /** The service returns only the projected attributes, so a cited paper
      arrives with no `references`. */
  predicate Projected(fetch: Fetch)
  {
    fetch.Fetched? ==>
      forall i :: 0 <= i < |fetch.refs| && fetch.refs[i].citedPaper.Some? ==>
        fetch.refs[i].citedPaper.value.references.None?
  }

  /** Every queued id is queued once and has not been expanded yet. */
  predicate Unexpanded(s: Crawl)
  {
    Distinct(s.queue) && QueuedFresh(s)
  }

  predicate QueuedFresh(s: Crawl)
  {
    forall i :: 0 <= i < |s.queue| ==>
      s.queue[i] in s.store.db && s.store.db[s.queue[i]].references.None?
  }

  lemma SeedUnexpanded(papers: seq<Paper>)
    requires Distinct(Ids(papers))
    requires forall i :: 0 <= i < |papers| ==> papers[i].references.None?
    ensures Unexpanded(Seed(papers))
  {
    SeedQueuedUnexpanded(papers);
  }

  lemma SeedQueuedUnexpanded(papers: seq<Paper>)
    requires forall i :: 0 <= i < |papers| ==> papers[i].references.None?
    ensures QueuedFresh(Seed(papers))
  {
    SeedConsistent(papers);
    var db := Seed(papers).store.db;
    forall k | k in db ensures db[k].references.None? {
      assert db[k] in papers;
    }
  }

  /** Popping the head and appending ids that are not in the tail keeps
      the queue free of repeats. */
  lemma AppendDistinct(q: seq<PaperId>, extra: seq<PaperId>)
    requires |q| > 0 && Distinct(q) && Distinct(extra)
    requires forall i :: 0 <= i < |extra| ==> extra[i] !in q[1..]
    ensures Distinct(q[1..] + extra)
  {
    var r := q[1..] + extra;
    var n := |q| - 1;
    forall i, j | 0 <= i < j < |r| ensures r[i] != r[j] {
      if j < n {
        assert r[i] == q[i + 1] && r[j] == q[j + 1];
      } else if i < n {
        assert r[i] == q[i + 1] && r[j] == extra[j - n];
      } else {
        assert r[i] == extra[i - n] && r[j] == extra[j - n];
      }
    }
  }

  lemma StepFailedUnexpanded(s: Crawl, fetch: Fetch)
    requires Consistent(s) && Unexpanded(s) && |s.queue| > 0 && !Succeeds(fetch)
    ensures Unexpanded(Step(s, fetch))
  {
    var r := Step(s, fetch);
    assert s.queue[0] !in s.queue[1..] by {
      forall i | 1 <= i < |s.queue| ensures s.queue[i] != s.queue[0] { }
    }
    AppendDistinct(s.queue, [s.queue[0]]);
    forall i | 0 <= i < |r.queue| ensures r.store.db[r.queue[i]].references.None? {
      if i < |s.queue| - 1 {
        assert r.queue[i] == s.queue[i + 1];
      } else {
        assert r.queue[i] == s.queue[0];
      }
    }
  }

  lemma StepSucceededDistinct(s: Crawl, fetch: Fetch)
    requires Consistent(s) && Distinct(s.queue) && |s.queue| > 0 && Succeeds(fetch)
    ensures Distinct(Step(s, fetch).queue)
  {
    var ps := CitedPapers(fetch.refs);
    var pushed := FirstSeen(s.store.db.Keys, PassingIds(ps));
    FirstSeenSpec(s.store.db.Keys, PassingIds(ps));
    forall i | 0 <= i < |pushed| ensures pushed[i] !in s.queue[1..] {
      assert pushed[i] in Elems(pushed);
    }
    AppendDistinct(s.queue, pushed);
    assert Step(s, fetch).queue == s.queue[1..] + pushed;
  }

  lemma StepSucceededFresh(s: Crawl, fetch: Fetch)
    requires Consistent(s) && Unexpanded(s) && |s.queue| > 0 && Projected(fetch)
    requires Succeeds(fetch)
    ensures QueuedFresh(Step(s, fetch))
  {
    var r := Step(s, fetch);
    var ps := CitedPapers(fetch.refs);
    var n := |s.queue| - 1;
    StepPushesOnlyNew(s, fetch);
    forall i | 0 <= i < |r.queue|
      ensures r.queue[i] in r.store.db && r.store.db[r.queue[i]].references.None?
    {
      if i < n {
        assert r.queue[i] == s.queue[i + 1];
        assert s.queue[i + 1] != s.queue[0];
      } else {
        NewRecordFromFetch(s, fetch, r.queue[i]);
      }
    }
  }

  /** A record registered by the step is one of the fetched cited papers. */
  lemma NewRecordFromFetch(s: Crawl, fetch: Fetch, k: PaperId)
    requires |s.queue| > 0 && Succeeds(fetch) && Projected(fetch)
    requires k in Step(s, fetch).store.db && k !in s.store.db
    ensures Step(s, fetch).store.db[k].references.None?
  {
    var ps := CitedPapers(fetch.refs);
    var p := Step(s, fetch).store.db[k];
    assert p in ps;
    var j :| 0 <= j < |ps| && ps[j] == p;
    assert fetch.refs[j].citedPaper.value == p;
  }

  lemma StepUnexpanded(s: Crawl, fetch: Fetch)
    requires Consistent(s) && Unexpanded(s) && |s.queue| > 0 && Projected(fetch)
    ensures Unexpanded(Step(s, fetch))
  {
    if Succeeds(fetch) {
      StepSucceededDistinct(s, fetch);
      StepSucceededFresh(s, fetch);
    } else {
      StepFailedUnexpanded(s, fetch);
    }
  }

  /** No duplicate expansion: a successful step expands an id whose
      `references` were still unset, and a record whose `references` are
      set is never touched again. */
  lemma StepExpandsOnce(s: Crawl, fetch: Fetch)
    requires Consistent(s) && Unexpanded(s) && |s.queue| > 0
    ensures Succeeds(fetch) ==>
      s.store.db[s.queue[0]].references.None? &&
      Step(s, fetch).store.db[s.queue[0]].references.Some?
    ensures forall k :: k in s.store.db && s.store.db[k].references.Some? ==>
      Step(s, fetch).store.db[k] == s.store.db[k]
  {
    assert s.queue[0] in s.store.db;
  }

  predicate AllProjected(fetches: seq<Fetch>)
  {
    forall i :: 0 <= i < |fetches| ==> Projected(fetches[i])
  }

  lemma {:induction false} AllProjectedTail(fetches: seq<Fetch>)
    requires |fetches| > 0 && AllProjected(fetches)
    ensures Projected(fetches[0]) && AllProjected(fetches[1..])
  {
    forall i | 0 <= i < |fetches[1..]| ensures Projected(fetches[1..][i]) {
      assert fetches[1..][i] == fetches[i + 1];
    }
  }

  /** Over any run from an unexpanded state, the queue stays free of
      repeats and holds only unexpanded ids. */
  lemma {:induction false} RunUnexpanded(s: Crawl, fetches: seq<Fetch>)
    requires Consistent(s) && Unexpanded(s) && AllProjected(fetches)
    ensures Unexpanded(Run(s, fetches))
    decreases |fetches|
  {
    if |fetches| > 0 && |s.queue| > 0 {
      AllProjectedTail(fetches);
      StepConsistent(s, fetches[0]);
      StepUnexpanded(s, fetches[0]);
      RunUnexpanded(Step(s, fetches[0]), fetches[1..]);
    }
  }

  /** Over any run from an unexpanded state, a record whose `references`
      are set is never changed again. */
  lemma {:induction false} RunFreezesReferences(s: Crawl, fetches: seq<Fetch>)
    requires Consistent(s) && Unexpanded(s) && AllProjected(fetches)
    ensures forall k :: k in s.store.db && s.store.db[k].references.Some? ==>
      k in Run(s, fetches).store.db && Run(s, fetches).store.db[k] == s.store.db[k]
    decreases |fetches|
  {
    if |fetches| > 0 && |s.queue| > 0 {
      AllProjectedTail(fetches);
      StepConsistent(s, fetches[0]);
      StepUnexpanded(s, fetches[0]);
      StepExpandsOnce(s, fetches[0]);
      StepGrows(s, fetches[0]);
      RunFreezesReferences(Step(s, fetches[0]), fetches[1..]);
    }
  }

  /** Over any run from distinct, unexpanded seeds, a `references` list
      once set is never set again: no paper is expanded twice. */
  lemma RunExpandsOnce(s: Crawl, fetches: seq<Fetch>)
    requires Consistent(s) && Unexpanded(s) && AllProjected(fetches)
    ensures Consistent(Run(s, fetches)) && Unexpanded(Run(s, fetches))
    ensures forall k :: k in s.store.db && s.store.db[k].references.Some? ==>
      k in Run(s, fetches).store.db && Run(s, fetches).store.db[k] == s.store.db[k]
  {
    RunConsistent(s, fetches);
    RunUnexpanded(s, fetches);
    RunFreezesReferences(s, fetches);
  }

  /** Running two batches of fetches one after the other is running
      their concatenation. */
  lemma {:induction false} RunAppend(s: Crawl, a: seq<Fetch>, b: seq<Fetch>)
    ensures Run(s, a + b) == Run(Run(s, a), b)
    decreases |a|
  {
    if |a| == 0 {
      assert a + b == b;
    } else if |s.queue| > 0 {
      assert (a + b)[0] == a[0];
      assert (a + b)[1..] == a[1..] + b;
      RunAppend(Step(s, a[0]), a[1..], b);
    }
  }

  lemma {:induction false} AllProjectedSlice(fetches: seq<Fetch>, i: nat, j: nat)
    requires i <= j <= |fetches| && AllProjected(fetches)
    ensures AllProjected(fetches[i..j])
  {
    forall n | 0 <= n < j - i ensures Projected(fetches[i..j][n]) {
      assert fetches[i..j][n] == fetches[i + n];
    }
  }

  /** Across the whole run: once a record's `references` are set after
      `i` fetches, that record is unchanged after any later count `j` of
      fetches, so no paper is expanded twice during a run. */
  lemma {:induction false} RunPrefixFreezes(s: Crawl, fetches: seq<Fetch>, i: nat, j: nat)
    requires Consistent(s) && Unexpanded(s) && AllProjected(fetches)
    requires i <= j <= |fetches|
    ensures var before, after := Run(s, fetches[..i]).store.db, Run(s, fetches[..j]).store.db;
      forall k :: k in before && before[k].references.Some? ==>
        k in after && after[k] == before[k]
  {
    AllProjectedSlice(fetches, 0, i);
    AllProjectedSlice(fetches, i, j);
    assert fetches[0..i] == fetches[..i];
    var mid := Run(s, fetches[..i]);
    RunExpandsOnce(s, fetches[..i]);
    assert fetches[..j] == fetches[..i] + fetches[i..j];
    RunAppend(s, fetches[..i], fetches[i..j]);
    RunFreezesReferences(mid, fetches[i..j]);
  }
}
