/** The interrupt handler of `traverse_multithreading`: empty the queue
    into the remaining-ids list and write the store out with it. */
module Checkpoint {
  import opened Seqs
  import opened PaperType
  import opened PaperDB
  import opened Crawler
  import opened CrawlInvariants

  /** `while not queue.empty(): result_list.append(queue.get())`, then
      the database dump. `get` without `task_done` leaves the unfinished
      counter as it was. */
  method Checkpoint(s: Crawl) returns (snapshot: Db, remaining: seq<PaperId>, r: Crawl)
    ensures remaining == s.queue
    ensures r.queue == [] && r.unfinished == s.unfinished && r.store == s.store
    ensures snapshot == s.store.db
    ensures Consistent(s) ==> forall i :: 0 <= i < |remaining| ==> remaining[i] in snapshot
    ensures Unexpanded(s) ==> |remaining| <= |snapshot|
  {
    var q := s.queue;
    remaining := [];
    while |q| > 0
      invariant remaining + q == s.queue
      decreases |q|
    {
      remaining := remaining + [q[0]];
      q := q[1..];
    }
    assert remaining == s.queue;
    snapshot := s.store.db;
    r := s.(queue := q);
    if Unexpanded(s) {
      forall x | x in Elems(remaining) ensures x in snapshot {
        var i :| 0 <= i < |remaining| && remaining[i] == x;
      }
      DistinctCard(remaining);
      SubsetCard(Elems(remaining), snapshot.Keys);
    }
  }
}
