/** The crawl: seeding the store and the frontier queue, the inclusion
    filter, and one iteration of a worker's loop as an atomic transition
    on (queue, store). */
module Crawler {
  import opened Wrappers
  import opened Seqs
  import opened PaperType
  import opened PaperDB
  import CF = CitationFields

  /** `CitationDetail`, reduced to the cited paper it carries. */
  datatype Citation = Citation(citedPaper: Option<Paper>)

  /** What `get_paper_references` did for the popped id: returned a list
      of citations, or raised. */
  datatype Fetch = Fetched(refs: seq<Citation>) | Failed

  /** The shared state of the worker pool: the FIFO frontier, the queue's
      unfinished-task counter (raised by `put`, lowered by `task_done`),
      and the paper store. */
  datatype Crawl = Crawl(queue: seq<PaperId>, unfinished: int, store: Store)

  /** `getattr(paper, field.value) is not None` for a projected field. */
  function Present(p: Paper, f: CF.CitationField): bool
    requires f in CF.CrawlFields
  {
    match f
    case PaperId => p.paperId.Some?
    case Title => p.title.Some?
    case Year => p.year.Some?
    case Abstract => p.abstractText.Some?
    case ReferenceCount => p.referenceCount.Some?
    case CitationCount => p.citationCount.Some?
    case FieldsOfStudy => p.fieldsOfStudy.Some?
    case _ => false
  }

  /** The loop over `self.fields` that returns False at the first `None`. */
  function AllPresent(p: Paper, fs: seq<CF.CitationField>): (r: bool)
    requires forall i :: 0 <= i < |fs| ==> fs[i] in CF.CrawlFields
    ensures r <==> forall i :: 0 <= i < |fs| ==> Present(p, fs[i])
  {
    |fs| == 0 || (Present(p, fs[0]) && AllPresent(p, fs[1..]))
  }

  const MinYear: int := 2000

  /** `check_paper_fields`: all seven projected attributes present and
      the paper published in 2000 or later. */
  function CheckPaperFields(p: Paper): (r: bool)
    ensures r <==>
      && p.paperId.Some? && p.title.Some? && p.year.Some?
      && p.abstractText.Some? && p.referenceCount.Some?
      && p.citationCount.Some? && p.fieldsOfStudy.Some?
      && p.year.value >= MinYear
  {
    AllPresentCrawl(p);
    AllPresent(p, CF.CrawlFields) && p.year.value >= MinYear
  }

  /** The loop over the seven crawl fields checks exactly those seven
      attributes. */
  lemma AllPresentCrawl(p: Paper)
    ensures AllPresent(p, CF.CrawlFields) <==>
      && p.paperId.Some? && p.title.Some? && p.year.Some?
      && p.abstractText.Some? && p.referenceCount.Some?
      && p.citationCount.Some? && p.fieldsOfStudy.Some?
  {
    var fs := CF.CrawlFields;
    assert Present(p, fs[0]) == p.paperId.Some? && Present(p, fs[1]) == p.title.Some?;
    assert Present(p, fs[2]) == p.year.Some? && Present(p, fs[3]) == p.abstractText.Some?;
    assert Present(p, fs[4]) == p.referenceCount.Some?;
    assert Present(p, fs[5]) == p.citationCount.Some?;
    assert Present(p, fs[6]) == p.fieldsOfStudy.Some?;
    if Present(p, fs[0]) && Present(p, fs[1]) && Present(p, fs[2]) && Present(p, fs[3])
      && Present(p, fs[4]) && Present(p, fs[5]) && Present(p, fs[6])
    {
      forall i | 0 <= i < |fs| ensures Present(p, fs[i]) {
        assert i == 0 || i == 1 || i == 2 || i == 3 || i == 4 || i == 5 || i == 6;
      }
    }
  }

  /** The ids of a list of papers, in order. */
  function Ids(ps: seq<Paper>): (r: seq<PaperId>)
    ensures |r| == |ps|
    ensures forall i :: 0 <= i < |ps| ==> r[i] == ps[i].paperId
  {
    if |ps| == 0 then [] else [ps[0].paperId] + Ids(ps[1..])
  }

  /** The ids of the papers that pass the filter, in order, duplicates kept:
      the ids `check_and_add` is called with. */
  function PassingIds(ps: seq<Paper>): seq<PaperId>
  {
    if |ps| == 0 then []
    else (if CheckPaperFields(ps[0]) then [ps[0].paperId] else []) + PassingIds(ps[1..])
  }

  /** Reference definition of insert-if-absent over a list: the first
      paper of `ps` filed under `k`. `check_and_add` never overwrites, so
      this is the record a loop of registrations leaves under `k`. */
  function FirstWithId(ps: seq<Paper>, k: PaperId): Option<Paper>
  {
    if |ps| == 0 then None
    else if ps[0].paperId == k then Some(ps[0])
    else FirstWithId(ps[1..], k)
  }

  /** The first paper of `ps` that passes the filter and is filed under `k`. */
  function FirstPassing(ps: seq<Paper>, k: PaperId): Option<Paper>
  {
    if |ps| == 0 then None
    else if CheckPaperFields(ps[0]) && ps[0].paperId == k then Some(ps[0])
    else FirstPassing(ps[1..], k)
  }

  lemma {:induction false} FirstWithIdAt(ps: seq<Paper>, k: PaperId, i: nat)
    requires i < |ps| && ps[i].paperId == k
    requires forall j :: 0 <= j < i ==> ps[j].paperId != k
    ensures FirstWithId(ps, k) == Some(ps[i])
  {
    if i > 0 {
      assert ps[0].paperId != k;
      assert forall j :: 0 <= j < i - 1 ==> ps[1..][j] == ps[j + 1];
      FirstWithIdAt(ps[1..], k, i - 1);
    }
  }

  lemma {:induction false} FirstWithIdNone(ps: seq<Paper>, k: PaperId)
    ensures FirstWithId(ps, k).None? <==> forall i :: 0 <= i < |ps| ==> ps[i].paperId != k
  {
    if |ps| > 0 {
      FirstWithIdNone(ps[1..], k);
      assert forall i :: 0 <= i < |ps| - 1 ==> ps[1..][i] == ps[i + 1];
      if ps[0].paperId != k {
        assert (forall i :: 0 <= i < |ps| ==> ps[i].paperId != k) <==>
          (forall i :: 0 <= i < |ps| - 1 ==> ps[1..][i].paperId != k);
      }
    }
  }

  lemma {:induction false} FirstPassingAt(ps: seq<Paper>, k: PaperId, i: nat)
    requires i < |ps| && CheckPaperFields(ps[i]) && ps[i].paperId == k
    requires forall j :: 0 <= j < i ==> !(CheckPaperFields(ps[j]) && ps[j].paperId == k)
    ensures FirstPassing(ps, k) == Some(ps[i])
  {
    if i > 0 {
      assert !(CheckPaperFields(ps[0]) && ps[0].paperId == k);
      assert forall j :: 0 <= j < i - 1 ==> ps[1..][j] == ps[j + 1];
      FirstPassingAt(ps[1..], k, i - 1);
    }
  }

  /** True when every citation carries a cited paper; a `None` there makes
      the list comprehension that builds `references` raise. */
  predicate AllCited(refs: seq<Citation>)
  {
    forall i :: 0 <= i < |refs| ==> refs[i].citedPaper.Some?
  }

  function CitedPapers(refs: seq<Citation>): (ps: seq<Paper>)
    requires AllCited(refs)
    ensures |ps| == |refs|
    ensures forall i :: 0 <= i < |refs| ==> ps[i] == refs[i].citedPaper.value
  {
    if |refs| == 0 then [] else [refs[0].citedPaper.value] + CitedPapers(refs[1..])
  }

  /** The try-block runs to completion. */
  predicate Succeeds(fetch: Fetch)
  {
    fetch.Fetched? && AllCited(fetch.refs)
  }

  /** The `for ref in refs` loop: register every cited paper that passes
      the filter, and collect (for `queue.put`) the ids that were new. */
  function Expand(st: Store, ps: seq<Paper>): (r: (Store, seq<PaperId>))
    ensures r.1 == FirstSeen(st.db.Keys, PassingIds(ps))
    ensures r.0.db.Keys == st.db.Keys + Elems(PassingIds(ps))
    ensures forall k :: k in st.db ==> r.0.db[k] == st.db[k]
    ensures forall k :: k in r.0.db && k !in st.db ==>
      r.0.db[k] in ps && CheckPaperFields(r.0.db[k]) && r.0.db[k].paperId == k
    ensures forall k :: k in r.0.db && k !in st.db ==> FirstPassing(ps, k) == Some(r.0.db[k])
    ensures r.0.calls == st.calls + |PassingIds(ps)|
    ensures Cadence(st) ==> Cadence(r.0)
    decreases |ps|
  {
    if |ps| == 0 then (st, [])
    else
      var p := ps[0];
      if CheckPaperFields(p) then
        var (alreadyIn, st1) := CheckAndAdd(st, p.paperId, p);
        var (st2, pushed) := Expand(st1, ps[1..]);
        assert PassingIds(ps) == [p.paperId] + PassingIds(ps[1..]);
        (st2, if alreadyIn then pushed else [p.paperId] + pushed)
      else
        assert PassingIds(ps) == PassingIds(ps[1..]);
        Expand(st, ps[1..])
  }

  /** What one successful iteration does, stated without the loop: the
      popped id's `references` become all cited ids, in order and
      unfiltered; every cited paper that passes the filter is registered,
      a new key holding the first passing paper filed under it; exactly the newly registered ids are pushed, in first-seen order;
      nothing else in the store changes. */
  predicate ExpandedStep(s: Crawl, ps: seq<Paper>, r: Crawl)
    requires |s.queue| > 0
  {
    var id := s.queue[0];
    var db, db' := s.store.db, r.store.db;
    && r.queue == s.queue[1..] + FirstSeen(db.Keys, PassingIds(ps))
    && db'.Keys == db.Keys + Elems(PassingIds(ps))
    && (id in db ==> db'[id] == db[id].(references := Some(Ids(ps))))
    && (forall k :: k in db && k != id ==> db'[k] == db[k])
    && (forall k :: k in db' && k !in db ==>
          db'[k] in ps && CheckPaperFields(db'[k]) && db'[k].paperId == k)
    && (forall k :: k in db' && k !in db ==> FirstPassing(ps, k) == Some(db'[k]))
    && r.store.calls == s.store.calls + |PassingIds(ps)|
  }

  /** One iteration of `GetPaperDetailThread.run`: pop, fetch, record,
      register and push; on an exception push the popped id back; then
      `task_done` once. */
  function Step(s: Crawl, fetch: Fetch): (r: Crawl)
    requires |s.queue| > 0
    ensures r.unfinished - |r.queue| == s.unfinished - |s.queue|
    ensures !Succeeds(fetch) ==> r == Crawl(s.queue[1..] + [s.queue[0]], s.unfinished, s.store)
    ensures Succeeds(fetch) ==> ExpandedStep(s, CitedPapers(fetch.refs), r)
    ensures Cadence(s.store) ==> Cadence(r.store)
  {
    var id := s.queue[0];
    var rest := s.queue[1..];
    if Succeeds(fetch) then
      var ps := CitedPapers(fetch.refs);
      var st := Update(s.store, id, [SetReferences(Some(Ids(ps)))]);
      UpdateReferences(s.store, id, Ids(ps));
      var (st', pushed) := Expand(st, ps);
      Crawl(rest + pushed, s.unfinished + |pushed| - 1, st')
    else
      Crawl(rest + [id], s.unfinished + 1 - 1, s.store)
  }

  /** The seeding loop of `traverse_multithreading`: `check_and_add` each
      seed under its own id (the wrapper counts these calls too); a key
      repeated among the seeds keeps its first seed. */
  function SeedStore(st: Store, papers: seq<Paper>): (r: Store)
    ensures r.db.Keys == st.db.Keys + Elems(Ids(papers))
    ensures forall k :: k in st.db ==> r.db[k] == st.db[k]
    ensures forall k :: k in r.db && k !in st.db ==> r.db[k] in papers && r.db[k].paperId == k
    ensures forall k :: k in r.db && k !in st.db ==> FirstWithId(papers, k) == Some(r.db[k])
    ensures r.calls == st.calls + |papers|
    ensures Cadence(st) ==> Cadence(r)
    decreases |papers|
  {
    if |papers| == 0 then st
    else
      var (_, st1) := CheckAndAdd(st, papers[0].paperId, papers[0]);
      assert Elems(Ids(papers)) == {papers[0].paperId} + Elems(Ids(papers[1..]));
      SeedStore(st1, papers[1..])
  }

  /** The state the workers start from: every seed registered and its id
      put on the queue, duplicates included. */
  function Seed(papers: seq<Paper>): (r: Crawl)
    ensures r.queue == Ids(papers) && r.unfinished == |papers|
    ensures r.store.db.Keys == Elems(Ids(papers))
    ensures forall k :: k in r.store.db ==> r.store.db[k] in papers && r.store.db[k].paperId == k
    ensures forall k :: k in r.store.db ==> FirstWithId(papers, k) == Some(r.store.db[k])
    ensures r.store.calls == |papers| && |r.store.snapshots| == |papers| / SnapshotEvery
  {
    Crawl(Ids(papers), |papers|, SeedStore(Empty(), papers))
  }

  /** Any sequence of worker iterations, each taken as atomic: `fetches` gives
      the outcome of each successive iteration; workers block once the
      queue is empty. */
  function Run(s: Crawl, fetches: seq<Fetch>): Crawl
    decreases |fetches|
  {
    if |fetches| == 0 || |s.queue| == 0 then s
    else Run(Step(s, fetches[0]), fetches[1..])
  }
}
