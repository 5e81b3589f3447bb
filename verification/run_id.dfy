/** `get_run_id`: the next run number under the intermediates folder. */
module RunId {
  import opened Text

  /** A directory listing entry: its name and whether it is a directory. */
  datatype DirEntry = DirEntry(name: string, isDir: bool)

  /** A directory whose name is all digits holds an earlier run. */
  predicate IsRunDir(e: DirEntry)
  {
    e.isDir && IsDigits(e.name)
  }

  function RunNumber(e: DirEntry): nat
    requires IsRunDir(e)
  {
    ParseNat(e.name)
  }

  /** One more than the largest earlier run number, or 1 when there is no
      earlier run; the new run's directory `str(id)` is a name no earlier
      run directory has. */
  method GetRunId(entries: seq<DirEntry>) returns (id: nat)
    ensures id >= 1
    ensures forall e <- entries :: IsRunDir(e) ==> RunNumber(e) < id
    ensures (forall e <- entries :: !IsRunDir(e)) ==> id == 1
    ensures (exists e <- entries :: IsRunDir(e)) ==>
      exists e <- entries :: IsRunDir(e) && RunNumber(e) + 1 == id
    ensures IsDigits(ShowNat(id))
    ensures forall e <- entries :: IsRunDir(e) ==> e.name != ShowNat(id)
  {
    var found := false;
    var best: nat := 0;
    var i := 0;
    while i < |entries|
      invariant 0 <= i <= |entries|
      invariant found <==> exists j :: 0 <= j < i && IsRunDir(entries[j])
      invariant found ==> forall j :: 0 <= j < i && IsRunDir(entries[j]) ==> RunNumber(entries[j]) <= best
      invariant found ==> exists j :: 0 <= j < i && IsRunDir(entries[j]) && RunNumber(entries[j]) == best
    {
      var e := entries[i];
      if IsRunDir(e) {
        var n := RunNumber(e);
        if !found || n > best {
          best := n;
        }
        found := true;
      }
      i := i + 1;
    }
    id := if found then best + 1 else 1;
    ParseShow(id);
  }
}
