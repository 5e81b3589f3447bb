# Paper-Refs-Grabber: the crawler and its analysis, modelled in Dafny

Paper-Refs-Grabber builds a citation graph from a few seed papers. Worker
threads pop paper ids from a FIFO queue and ask the paper-metadata service
for each paper's references, projected onto seven attributes. They record
the reference ids on the popped paper. Every cited paper that passes the
inclusion filter is registered in the paper store (`PaperDB`), and its id
is queued if it was new. A failed fetch puts the id back on the queue. A
wrapper around `check_and_add` counts its calls and writes the whole store
to the run's database file on every 50th call. On Ctrl+C the handler
drains the queue into the remaining-ids list and writes both out. A run
directory is numbered one more than the largest existing all-digit
directory name (1 when there is none), so gaps are never reused. Afterwards `get_result.py` reads the
database back, counts how often each paper is cited inside it, ranks by
count, numbers the top papers and draws the citation edges among them.

The model is functional:

- The store is a `map` from id to record, plus the call counter and the
  list of snapshots written so far.
- One worker iteration is one atomic transition `Crawler.Step` on
  (queue, unfinished counter, store).
- Each worker iteration is treated as atomic, and `Run` is any sequence of
  such steps. Iterations that overlap (two workers popping before either
  pushes) are not modelled. The fetch outcome of each step is a parameter.
- The analysis works on the database as an ordered list of entries. The
  JSON file fixes an item order, and the stable sort's tie order depends
  on it.

Modules:

- `Wrappers`, `Seqs`, `Text`: helpers, including Python's `str.join`,
  `str.split`, `str.isdigit`, `int` and `str`.
- `Base`: `BaseRequest.to_params`.
- `CitationFields`: the enum and `BaseFields.values`.
- `PaperType`: `PaperDetail` and `setattr`.
- `PaperDB`: the store and the counting wrapper.
- `Crawler`: the filter, the seeding loop and the worker step.
- `CrawlInvariants`: what every reachable state satisfies.
- `Checkpoint`: the interrupt drain.
- `RunId`: `get_run_id`.
- `Analysis`: `get_result.py`.
- `Scenario`: a worked two-step crawl.

The model follows the code in three places a reader might not expect:

- The snapshot counter counts every `check_and_add` call, inserting or
  not, seeds included. It does not count successful insertions.
- The snapshot is taken before the call's own insertion
  (build_user_db.py:53-57).
- A seed listed twice is queued twice (build_user_db.py:91-93).

## Model

| member | source | states |
|---|---|---|
| Text.SplitJoin | semantic_scholar/base.py:26 | splitting a `","`-joined list of comma-free pieces on `","` gives the pieces back, in order |
| Text.ParseShow | build_user_db.py:16-25 | `int(str(n)) == n`: the run directory named `str(run_id)` is read back as `run_id` |
| Base.FieldValues | semantic_scholar/base.py:26 | the list of `.value` strings has one entry per field, and entry i is the value of field i |
| Base.ToParams | semantic_scholar/base.py:20-27 | `offset` and `limit` pass through unchanged; no fields give `fields == ""`; one field gives exactly its value |
| Base.ParamsSplit | semantic_scholar/base.py:24-27 | if no value contains a comma, splitting `fields` on `","` recovers every field's value in order; an empty field list gives `[""]` |
| CitationFields.Value | semantic_scholar/paper/citation.py:16-32 | no member's value contains a comma |
| CitationFields.FromValue | semantic_scholar/paper/citation.py:15-32 | a lookup that finds a member finds one with exactly that value, and it finds none only when no member has that value |
| CitationFields.FromValueOfValue | semantic_scholar/paper/citation.py:15-32 | looking up a member's value returns that member, so no two members share a value |
| CitationFields.Values | semantic_scholar/base.py:10-12 | `values()` has 17 members; the member at position i is the one declared i-th; no member occurs twice |
| CitationFields.ValuesComplete | semantic_scholar/base.py:10-12 | every member occurs in `values()`, exactly once |
| CitationFields.CrawlParams | build_user_db.py:119-122 | the worker's request is offset 0, limit 100, and its `fields` string splits back into exactly the seven attribute names it projects, in order |
| PaperType.ApplyAttrs | build_user_db.py:84-85 | when the last entry of `attrs` sets `references`, the record ends with that value |
| PaperType.ApplyAttrsSets | build_user_db.py:84-85 | every attribute named by some entry ends up with the value stored by the last entry naming it, whatever it held before |
| PaperType.ApplyAttrsKeeps | build_user_db.py:84-85 | an attribute that no entry of `attrs` names keeps its old value |
| PaperDB.Register | build_user_db.py:73-78 | returns true iff the id was a key; then the map is unchanged; otherwise exactly that key is added, mapped to the given record; no old entry changes |
| PaperDB.CheckAndAdd | build_user_db.py:49-61 | as `Register`; the counter rises by one on every call; a snapshot of the store as it was BEFORE the insertion is appended iff the new count is a multiple of 50; so after n calls there are n div 50 snapshots |
| PaperDB.Update | build_user_db.py:80-85 | no-op on an absent id; otherwise the key set is unchanged, only that record changes, it becomes the record with `attrs` applied, and the counter is untouched |
| PaperDB.UpdateReferences | build_user_db.py:135-136 | setting only `references` leaves every other attribute of the record, `paperId` included, as it was |
| Crawler.AllPresent | build_user_db.py:125-127 | the loop over the fields is true iff every field's attribute is not None |
| Crawler.AllPresentCrawl | build_user_db.py:119-127 | the loop over the worker's seven fields checks exactly paperId, title, year, abstract, referenceCount, citationCount and fieldsOfStudy |
| Crawler.CheckPaperFields | build_user_db.py:124-128 | the filter is true iff all seven attributes are present and the year is at least 2000 |
| Crawler.Ids | build_user_db.py:136 | the reference list has one id per cited paper, in order |
| Crawler.CitedPapers | build_user_db.py:136-138 | when every citation carries a cited paper, the i-th cited paper is that of the i-th citation |
| Crawler.FirstWithIdAt | build_user_db.py:73-78 | the reference record for a key is the paper at the first position filed under it |
| Crawler.FirstWithIdNone | build_user_db.py:73-78 | there is no reference record for a key exactly when no paper is filed under it |
| Crawler.FirstPassingAt | build_user_db.py:137-140 | the reference record for a key among fetched papers is the first one that passes the filter and is filed under it |
| Crawler.Expand | build_user_db.py:137-142 | the ids pushed are the passing ids not already in the store, in first-seen order, each once; the key set grows by the passing ids; old records stay unchanged; each new key holds the first fetched paper that passes the filter and is filed under it (a later duplicate does not overwrite it); one counted call per passing paper |
| Crawler.Step | build_user_db.py:130-146 | the unfinished count minus the queue length is preserved (one `task_done` per pop); on failure the popped id goes to the back and the store is unchanged; on success the popped record's `references` are all cited ids in order, unfiltered, and the store and queue change as `Expand` says, each new key holding the first passing cited paper filed under it |
| Crawler.SeedStore | build_user_db.py:91-92 | every seed is registered under its own id; earlier records are kept; each new key holds the first seed filed under it; each call is counted |
| Crawler.Seed | build_user_db.py:88-93 | the queue holds the seeds' ids in order, duplicates included; the store holds exactly those keys, each mapped to the first seed with that id; the counter equals the number of seeds |
| Seqs.FirstSeenSpec | build_user_db.py:140-142 | in-order dedup against the ids already seen (how the pushed ids are chosen) gives distinct ids, exactly the input's ids that were not yet seen |
| CrawlInvariants.StepPushesOnlyNew | build_user_db.py:139-142 | every id a successful step pushes was absent from the store before the step and is present after it |
| CrawlInvariants.SeedConsistent | build_user_db.py:88-93 | after seeding, the queue counter equals the queue length, every queued id is a key, every record sits under its own id, and the snapshot cadence holds |
| CrawlInvariants.StepConsistent | build_user_db.py:130-146 | one worker iteration preserves that invariant |
| CrawlInvariants.RunConsistent | build_user_db.py:130-146 | any sequence of (atomic) worker iterations preserves it |
| CrawlInvariants.RunGrows | build_user_db.py:73-85 | over any run no key is removed, no record changes except in `references`, and the counter never decreases |
| CrawlInvariants.SeedUnexpanded | build_user_db.py:91-93 | distinct seeds without references give a queue without repeats, whose ids all have unset `references` |
| CrawlInvariants.StepUnexpanded | build_user_db.py:130-146 | when cited papers come without references, a step keeps the queue repeat-free with every queued record unexpanded |
| CrawlInvariants.StepExpandsOnce | build_user_db.py:130-146 | a successful step expands an id whose `references` were unset and sets them; a record whose `references` are set is left alone |
| CrawlInvariants.RunUnexpanded | build_user_db.py:130-146 | when cited papers come without references, any run keeps the queue free of repeats with every queued record unexpanded |
| CrawlInvariants.RunFreezesReferences | build_user_db.py:130-146 | over any such run, a record whose `references` are set stays in the store and never changes again |
| CrawlInvariants.RunExpandsOnce | build_user_db.py:130-146 | from a consistent state whose queue is repeat-free and unexpanded (the seeds give one, by `SeedConsistent` and `SeedUnexpanded`), any run keeps both invariants, and every record whose `references` were already set is unchanged at the end |
| CrawlInvariants.RunAppend | build_user_db.py:130-146 | running two batches of iterations one after the other is running their concatenation |
| CrawlInvariants.RunPrefixFreezes | build_user_db.py:130-146 | from such a state, a record whose `references` are set after the first i iterations is present and unchanged after any later number j of iterations: no paper is expanded twice during a run |
| Checkpoint.Checkpoint | build_user_db.py:99-106 | the remaining list is the queue in FIFO order; the queue is left empty; the unfinished counter is unchanged; the dump is the store; every remaining id is in the dump; with no repeats, the remaining list is no longer than the dump |
| RunId.GetRunId | build_user_db.py:15-21 | 1 when no entry is an all-digit directory; otherwise one more than the largest such number; always above every earlier run number; `str(id)` names no earlier run directory |
| Analysis.BumpSpec | get_result.py:21 | `get(k, 0) + 1`: k's count rises by one, no other count changes, the total rises by one; a new key is appended last with count 1, and a known key leaves every id in its place |
| Analysis.BumpAppends | get_result.py:21 | assigning a key the dict lacks appends it at the end with count 1 |
| Analysis.BumpInPlace | get_result.py:21 | assigning a key the dict has keeps the ids in the same order |
| Analysis.BumpOrder | get_result.py:21 | in id order, a bump appends k if it is new and changes nothing otherwise |
| Analysis.BumpLookup | get_result.py:21 | after one bump of k, k's count is one more and every other count is unchanged |
| Analysis.BumpIds | get_result.py:21 | a bump adds k to the counted ids and nothing else |
| Analysis.BumpWellFormed | get_result.py:21 | a bump keeps the count list free of repeated ids with every count at least 1 |
| Analysis.BumpTotal | get_result.py:21 | a bump raises the sum of the counts by exactly one |
| Analysis.TallyRefsSpec | get_result.py:19-21 | one record's loop adds, for each db key, its occurrences in the reference list, and nothing for other ids |
| Analysis.TallyEntriesSpec | get_result.py:17-21 | the loop over records adds each key's occurrences across all reference lists, and nothing for ids outside the db |
| Analysis.TallyRefsOrder | get_result.py:19-21 | one record's loop appends, after the ids already listed, the in-db references not yet listed, in order of first occurrence |
| Analysis.TallyRefsIds | get_result.py:19-21 | after one record's loop the listed ids are the old ones plus that record's in-db references |
| Analysis.TallyEntriesOrder | get_result.py:17-21 | the loop over records appends the in-db references not yet listed, in order of first occurrence across the records in file order |
| Analysis.CiteCountOrder | get_result.py:15-22 | the dict's ids, in order, are the in-db reference ids of all records in file order, each at its first occurrence |
| Analysis.CiteCountCorrect | get_result.py:15-22 | each counted id is a db key, listed once, with count equal to its occurrences across all reference lists (duplicates counted; `references is None` counts nothing); every cited key is listed; ids outside the db count 0; the counts sum to the in-db reference occurrences; ids are listed in order of first in-db reference |
| Analysis.SortByCountSpec | get_result.py:27 | the sort is non-increasing by count, a permutation, and stable (items of equal count keep input order), and it keeps the id set |
| Analysis.RankCorrect | get_result.py:108-109 | the top list has min(threshold, n) items in non-increasing order, all from the input; no omitted item outranks a kept one; ties keep input order; distinct ids stay distinct |
| Analysis.Find | get_result.py:28 | `paper_db[k]` is a record the db files under k |
| Analysis.TopEntries | get_result.py:28 | the top db has the ranked ids in ranked order, each mapped to its db record |
| Analysis.AssignIndices | get_result.py:28-30 | the top papers get indices 0..n-1 in ranked order, one per paper, and every index names the paper it was given to |
| Analysis.RefEdgesSpec | get_result.py:36-39 | one paper's edges go from its index to the index of each referenced top-set paper, and nowhere else |
| Analysis.EdgesFromSpec | get_result.py:80-85 | there is an edge i -> j iff paper i's references contain the id of top paper j |
| Analysis.TopGraph | get_result.py:27-39 | rank, number and connect: the top set is the rank's ids with their records, indices are positions, and edges are exactly the in-top-set references; no edge leaves the top set |
| Scenario.FilterBoundary | build_user_db.py:128 | with every other attribute present, year 1999 is rejected and 2000 accepted; a missing title or year is rejected |
| Scenario.DuplicateSeedKeepsFirst | build_user_db.py:91-92 | two different seeds with one id leave the first in the store |
| Scenario.TwoStepCrawl | build_user_db.py:88-146 | seed A, then expand A to B (2005) and C (1998): B is registered and queued, C is not, and A's references are [B, C]; then expanding B with no references empties the queue |

## Left out

- Threads, `RLock`, the blocking `Queue.get` and `queue.join()`: each
  worker iteration is one atomic step, and `Run` is any sequence of them.
- Overlapping worker iterations are not modelled. Two workers can both pop
  before either pushes, which gives queue orders no sequence of atomic
  steps reaches.
- Termination of the crawl: a permanently failing id is retried forever,
  so no run is proved to drain the queue.
- `signal.signal` registration, the `print` calls and `sys.exit`. Only the
  drain and what it writes are modelled.
- The file system and JSON. `os.listdir` becomes the `DirEntry` list, and
  `makedirs` and `copyfile` are left out. The periodic writes of the
  database file are the store's `snapshots`; on Ctrl+C the file is
  overwritten with the dump `Checkpoint` returns. The remaining-ids file
  is the list `Checkpoint` returns.
- HTTP and `requests`. The fetch is a parameter: a list of citations or a
  failure. The service's 100-reference page limit is not modelled.
- `fastclasses_json` `to_dict` / `from_dict`. The stubbed `from_dict`
  overrides returning None are left out too.
- Rendering (networkx, matplotlib, graphviz), the text of `write_res`, and
  its year-based "most recent" list, which can compare None.
- Seed resolution by title search (`get_start_points`).
- `PaperDetail` attributes the core never reads. The record keeps the
  seven projected attributes plus `references`, which holds the cited ids
  rather than stub records.
- `SearchFields`, `DetailFields` and `get_paper_citations`: not part of
  this model.
- The error path when a write fails inside `check_and_add`, which would
  leave a step half done.
- Text.IsDigits: models `str.isdigit` over ASCII digits only. Python also
  accepts other Unicode digits, some of which `int` rejects.
- Analysis.RankCorrect: the threshold is a natural number. A negative
  slice bound in Python would drop items from the end instead.
- CitationFields.CrawlParams: states that the `fields` string splits back
  into the seven names. It does not spell out the joined string literally.
- PaperDB.CheckAndAdd: the wrapper's counter belongs to the decorated
  function, not to one store. The model keeps it in the store, which is
  the same thing for the single store a run creates.
- Resuming from a checkpoint is not modelled; the code has no resume path.
