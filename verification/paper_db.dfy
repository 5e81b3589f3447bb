/** `PaperDB`: the insert-if-absent registry of papers, its attribute
    update, and the `count_and_save` wrapper that writes a snapshot of the
    registry on every 50th registration call. */
module PaperDB {
  import opened Wrappers
  import opened PaperType

  type Db = map<PaperId, Paper>

  /** The wrapper writes the database file once per this many calls. */
  const SnapshotEvery: nat := 50

  /** The registry, the wrapper's call counter, and the periodic writes of
      the database file made so far. On Ctrl+C the file is overwritten
      once more, with the dump `Checkpoint` returns. */
  datatype Store = Store(db: Db, calls: nat, snapshots: seq<Db>)

  function Empty(): (s: Store)
    ensures s.db == map[] && s.calls == 0 && s.snapshots == []
  {
    Store(map[], 0, [])
  }

  /** The undecorated `check_and_add`: reports whether `id` was already a
      key, and inserts `paper` under `id` only when it was not. */
  function Register(db: Db, id: PaperId, paper: Paper): (r: (bool, Db))
    ensures r.0 <==> id in db
    ensures r.0 ==> r.1 == db
    ensures !r.0 ==> r.1.Keys == db.Keys + {id} && r.1[id] == paper
    ensures forall k :: k in db ==> k in r.1 && r.1[k] == db[k]
  {
    if id in db then (true, db) else (false, db[id := paper])
  }

  /** `check_and_add` as decorated by `count_and_save`: every call bumps
      the counter, and when the new count is a multiple of 50 the registry
      is written out BEFORE this call's insertion runs. */
  function CheckAndAdd(s: Store, id: PaperId, paper: Paper): (r: (bool, Store))
    ensures r.0 <==> id in s.db
    ensures r.0 ==> r.1.db == s.db
    ensures !r.0 ==> r.1.db.Keys == s.db.Keys + {id} && r.1.db[id] == paper
    ensures forall k :: k in s.db ==> k in r.1.db && r.1.db[k] == s.db[k]
    ensures r.1.calls == s.calls + 1
    ensures r.1.calls % SnapshotEvery == 0 ==> r.1.snapshots == s.snapshots + [s.db]
    ensures r.1.calls % SnapshotEvery != 0 ==> r.1.snapshots == s.snapshots
    ensures Cadence(s) ==> Cadence(r.1)
  {
    var calls := s.calls + 1;
    var snapshots := if calls % SnapshotEvery == 0 then s.snapshots + [s.db] else s.snapshots;
    var (already, db) := Register(s.db, id, paper);
    (already, Store(db, calls, snapshots))
  }

  /** After n calls exactly n div 50 snapshots have been written. */
  predicate Cadence(s: Store)
  {
    |s.snapshots| == s.calls / SnapshotEvery
  }

  /** `PaperDB.update`: a no-op for an absent id; otherwise only the named
      attributes of that one record change. Not counted by the wrapper. */
  function Update(s: Store, id: PaperId, attrs: seq<Attr>): (r: Store)
    ensures id !in s.db ==> r == s
    ensures r.db.Keys == s.db.Keys
    ensures forall k :: k in s.db && k != id ==> r.db[k] == s.db[k]
    ensures id in s.db ==> r.db[id] == ApplyAttrs(s.db[id], attrs)
    ensures r.calls == s.calls && r.snapshots == s.snapshots
  {
    if id in s.db then s.(db := s.db[id := ApplyAttrs(s.db[id], attrs)]) else s
  }

  /** Setting only `references` keeps every other attribute of the record,
      so a record filed under `k` still has `paperId == k`. */
  lemma UpdateReferences(s: Store, id: PaperId, refs: seq<PaperId>)
    ensures id in s.db ==>
      (Update(s, id, [SetReferences(Some(refs))]).db[id] == s.db[id].(references := Some(refs)))
  {
    if id in s.db {
      var p := s.db[id];
      var r := ApplyAttrs(p, [SetReferences(Some(refs))]);
      assert r == ApplyAttrs(p.(references := Some(refs)), []);
    }
  }
}
