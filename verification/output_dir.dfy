/** Clearing the output directory before a session (ssync.py:44-54). The
    directory is the listing `os.listdir` returns, each entry tagged with
    what the `os.path` tests would say about it; which removals raise is an
    input, since that depends on the file system. */
module OutputDir {
  import opened Failures

  datatype Kind =
    | File       // `isfile` holds: a regular file, or a link to one
    | Link       // `islink` holds but `isfile` does not: a link to anything but a regular file
    | Directory  // `isdir` holds and it is not a link
    | Special    // none of the three: a FIFO, socket or device node

  datatype Entry = Entry(name: string, kind: Kind)

  /** The entry falls into a branch that removes it (`unlink` or `rmtree`). */
  predicate Removable(e: Entry)
  {
    e.kind != Special
  }

  /** Removing the entry is attempted and raises. */
  predicate Fails(e: Entry, undeletable: set<string>)
  {
    Removable(e) && e.name in undeletable
  }

  /** `os.path.join(dir, name)` for a name from a listing. */
  function PathJoin(dir: string, name: string): (p: string)
    ensures |p| >= |name| && p[|p| - |name|..] == name
    ensures |name| > 0 && name[0] == '/' ==> p == name
    ensures |name| > 0 && name[0] != '/' && (dir == [] || dir[|dir| - 1] == '/') ==> p == dir + name
    ensures |name| > 0 && name[0] != '/' && dir != [] && dir[|dir| - 1] != '/' ==> p == dir + "/" + name
  {
    if |name| > 0 && name[0] == '/' then name
    else if dir == [] || dir[|dir| - 1] == '/' then dir + name
    else dir + "/" + name
  }

  /** The names of the entries that no branch removes. */
  function Kept(listing: seq<Entry>): set<string>
  {
    set k | 0 <= k < |listing| && !Removable(listing[k]) :: listing[k].name
  }

  /** The kept names of a listing: its head's name if the head is kept,
      and the kept names of the rest. */
  lemma KeptCons(listing: seq<Entry>)
    requires listing != []
    ensures Kept(listing) == (if Removable(listing[0]) then {} else {listing[0].name}) + Kept(listing[1..])
  {
    var rest := listing[1..];
    assert forall k :: 1 <= k < |listing| ==> listing[k] == rest[k - 1];
    assert forall k :: 0 <= k < |rest| ==> rest[k] == listing[k + 1];
  }

  /** The position of the first entry whose removal raises, or the length
      of the listing when none does. */
  function FirstFailure(listing: seq<Entry>, undeletable: set<string>): (k: nat)
    ensures k <= |listing|
    ensures k < |listing| ==> Fails(listing[k], undeletable)
    ensures forall m :: 0 <= m < k ==> !Fails(listing[m], undeletable)
    decreases |listing|
  {
    if listing == [] || Fails(listing[0], undeletable) then 0
    else 1 + FirstFailure(listing[1..], undeletable)
  }

  /** Walks the listing in order, removing files, links and directories.
      The first removal that raises stops the program with the joined path
      of that entry; when none raises, what is left is the special entries,
      which no branch touches. */
  function Clear(dir: string, listing: seq<Entry>, undeletable: set<string>): (r: Result<set<string>>)
    ensures r.Success? <==> forall k :: 0 <= k < |listing| ==> !Fails(listing[k], undeletable)
    ensures r.Success? ==> r.value == Kept(listing)
    ensures r.Failure? ==>
              && FirstFailure(listing, undeletable) < |listing|
              && r.error == DeleteFailed(PathJoin(dir, listing[FirstFailure(listing, undeletable)].name))
    decreases |listing|
  {
    if listing == [] then Success({})
    else
      var e := listing[0];
      if Fails(e, undeletable) then Failure(DeleteFailed(PathJoin(dir, e.name)))
      else
        var rest := listing[1..];
        assert forall k :: 0 <= k < |rest| ==> rest[k] == listing[k + 1];
        match Clear(dir, rest, undeletable)
        case Failure(err) => Failure(err)
        case Success(kept) =>
          KeptCons(listing);
          Success(if Removable(e) then kept else {e.name} + kept)
  }

  /** With no special entries in it, a cleared directory is empty. */
  lemma ClearEmpties(dir: string, listing: seq<Entry>, undeletable: set<string>)
    requires forall k :: 0 <= k < |listing| ==> Removable(listing[k])
    requires Clear(dir, listing, undeletable).Success?
    ensures Clear(dir, listing, undeletable).value == {}
  {
  }
}
