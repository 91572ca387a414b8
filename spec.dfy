/** What one synchronization pass does, as functions of the folders it
    starts from and of the listings it iterates over. */
module SyncSpec {
  import opened Files
  import opened Events
  import opened Listing

  /** The replica's copy of source file `n` has to be (re)written: it is
      missing, or the shallow comparison finds it different. */
  predicate NeedsCopy(src: Dir, rep: Dir, n: string)
    requires n in src
    // an exact copy is never copied again
    ensures n in rep && rep[n] == src[n] ==> !NeedsCopy(src, rep, n)
    // a replica file of another size always is
    ensures n in rep && rep[n].Size() != src[n].Size() ==> NeedsCopy(src, rep, n)
  {
    n !in rep || !Cmp(src[n], rep[n])
  }

  /** The records the copy/overwrite loop writes for source file `n`,
      against replica `rep`. */
  function StepEvents(src: Dir, rep: Dir, n: string): (r: seq<Event>)
    requires n in src
    // silent exactly when the file needs no copy
    ensures r == [] <==> !NeedsCopy(src, rep, n)
    // a step that acts ends with the copy, preceded by the stale removal if any
    ensures r != [] ==> r[|r| - 1] == Event(Info, Copied(n))
    ensures |r| == 2 ==> r[0] == Event(Info, RemovedStale(n))
    ensures |r| <= 2
  {
    if n !in rep then [Event(Info, Copied(n))]
    else if !Cmp(src[n], rep[n]) then [Event(Info, RemovedStale(n)), Event(Info, Copied(n))]
    else []
  }

  /** The records of the copy/overwrite loop over `names`, each compared
      against replica `rep` as it was before the loop. */
  function CopyEvents(src: Dir, rep: Dir, names: seq<string>): (r: seq<Event>)
    requires forall n :: n in names ==> n in src
    ensures |r| <= 2 * |names|
    decreases |names|
  {
    if names == [] then []
    else CopyEvents(src, rep, names[..|names| - 1]) + StepEvents(src, rep, names[|names| - 1])
  }

  /** `names` that have no file in the source. */
  function Orphans(src: Dir, names: seq<string>): (r: set<string>)
    ensures r * src.Keys == {}
    ensures forall n :: n in r ==> n in names
  {
    set n | n in names && n !in src
  }

  /** The records of the orphan-delete loop over `names`. */
  function OrphanEvents(src: Dir, names: seq<string>): (r: seq<Event>)
    ensures |r| <= |names|
    decreases |names|
  {
    if names == [] then []
    else
      var n := names[|names| - 1];
      OrphanEvents(src, names[..|names| - 1]) + (if n in src then [] else [Event(Info, RemovedOrphan(n))])
  }

  /** The replica after the copy/overwrite loop has handled the source
      files `done`, starting from replica `rep`. */
  function Refresh(src: Dir, rep: Dir, done: seq<string>): (r: Dir)
    requires forall n :: n in done ==> n in src
    ensures r.Keys == rep.Keys + (set m | m in done)
    ensures forall m :: m in done ==> !NeedsCopy(src, r, m)
    ensures forall m :: m in rep && m !in done ==> r[m] == rep[m]
  {
    map n | n in rep.Keys + (set m | m in done) ::
      if n in done && NeedsCopy(src, rep, n) then src[n] else rep[n]
  }

  /** The replica after a whole pass from replica `rep`. */
  function Mirror(src: Dir, rep: Dir): (r: Dir)
    ensures r.Keys == src.Keys
  {
    map n | n in src :: if NeedsCopy(src, rep, n) then src[n] else rep[n]
  }

  /** The records of the replica bootstrap: a warning that the replica
      folder is missing, then the note that it was made. */
  function BootEvents(rep: Option<Dir>): (r: seq<Event>)
    ensures r == [] <==> rep.Some?
    ensures rep.None? ==> r[0].level == Warning && r[|r| - 1].msg == ReplicaCreated
  {
    if rep.None? then [Event(Warning, ReplicaNotFound), Event(Info, ReplicaCreated)] else []
  }

  /** The log of a pass once both folders exist: the start record, the
      records of the two loops over the listings `srcNames` and
      `repNames`, the end record. */
  function MirrorEvents(src: Dir, rep: Dir, srcNames: seq<string>, repNames: seq<string>): (r: seq<Event>)
    requires forall n :: n in srcNames ==> n in src
    ensures 2 <= |r| <= 2 + 2 * |srcNames| + |repNames|
    ensures r[0] == Event(Info, StartSync) && r[|r| - 1] == Event(Info, FinishedSync)
  {
    [Event(Info, StartSync)]
    + CopyEvents(src, rep, srcNames)
    + OrphanEvents(src, repNames)
    + [Event(Info, FinishedSync)]
  }

  /** The whole log of a pass over an existing source folder `src`, from
      replica `rep` (None: no replica folder). */
  function PassEvents(src: Dir, rep: Option<Dir>, srcNames: seq<string>, repNames: seq<string>): (r: seq<Event>)
    requires forall n :: n in srcNames ==> n in src
    ensures |r| >= 2
    ensures r[0] == if rep.None? then Event(Warning, ReplicaNotFound) else Event(Info, StartSync)
    ensures r[|r| - 1] == Event(Info, FinishedSync)
  {
    BootEvents(rep) + MirrorEvents(src, Existing(rep), srcNames, repNames)
  }

  /** The copy/overwrite loop's handling of source file `n`, against the
      replica as the loop has left it so far. */
  function CopyOne(src: Dir, rep: Dir, n: string): (r: Dir)
    requires n in src
    ensures r.Keys == rep.Keys + {n}
    ensures !NeedsCopy(src, r, n)
    ensures r[n] == src[n] || (n in rep && r[n] == rep[n])
    ensures forall m :: m in rep && m != n ==> r[m] == rep[m]
    // a file that compares equal is left as it is
    ensures !NeedsCopy(src, rep, n) ==> r == rep
  {
    if NeedsCopy(src, rep, n) then rep[n := src[n]] else rep
  }

  /** The replica after the copy/overwrite loop has handled `names` in
      order, each against the replica as the previous steps left it. */
  function CopyAll(src: Dir, rep: Dir, names: seq<string>): (r: Dir)
    requires forall n :: n in names ==> n in src
    ensures r.Keys == rep.Keys + (set m | m in names)
    ensures forall m :: m in names ==> !NeedsCopy(src, r, m)
    ensures forall m :: m in rep && m !in names ==> r[m] == rep[m]
    decreases |names|
  {
    if names == [] then rep
    else
      var init, n := names[..|names| - 1], names[|names| - 1];
      assert forall m :: m in names <==> m in init || m == n by {
        assert names == init + [n];
      }
      CopyOne(src, CopyAll(src, rep, init), n)
  }

  /** The records the copy/overwrite loop writes over `names`, each step
      comparing against the replica as the previous steps left it. */
  function CopyLog(src: Dir, rep: Dir, names: seq<string>): (r: seq<Event>)
    requires forall n :: n in names ==> n in src
    ensures |r| <= 2 * |names|
    decreases |names|
  {
    if names == [] then []
    else
      var init := names[..|names| - 1];
      CopyLog(src, rep, init) + StepEvents(src, CopyAll(src, rep, init), names[|names| - 1])
  }

  /** The copy/overwrite loop's fold, one name further. */
  lemma CopyAllStep(src: Dir, rep: Dir, names: seq<string>, i: nat)
    requires i < |names|
    requires forall n :: n in names ==> n in src
    ensures CopyAll(src, rep, names[..i + 1]) == CopyOne(src, CopyAll(src, rep, names[..i]), names[i])
    ensures CopyLog(src, rep, names[..i + 1])
            == CopyLog(src, rep, names[..i]) + StepEvents(src, CopyAll(src, rep, names[..i]), names[i])
  {
    var done := names[..i + 1];
    assert done[..i] == names[..i] && done[i] == names[i];
  }

  /** A file the copy/overwrite loop has not reached yet is as it was
      before the loop. */
  lemma RefreshUntouched(src: Dir, rep: Dir, done: seq<string>, n: string)
    requires forall m :: m in done ==> m in src
    requires n !in done
    ensures n in Refresh(src, rep, done) <==> n in rep
    ensures n in rep ==> Refresh(src, rep, done)[n] == rep[n]
  {
  }

  /** The loop's state after one more distinct name. */
  lemma RefreshLast(src: Dir, rep: Dir, names: seq<string>)
    requires names != [] && names[|names| - 1] !in names[..|names| - 1]
    requires forall n :: n in names ==> n in src
    ensures Refresh(src, rep, names)
            == CopyOne(src, Refresh(src, rep, names[..|names| - 1]), names[|names| - 1])
    ensures StepEvents(src, Refresh(src, rep, names[..|names| - 1]), names[|names| - 1])
            == StepEvents(src, rep, names[|names| - 1])
  {
    var init, n := names[..|names| - 1], names[|names| - 1];
    forall m ensures m in names <==> m in init || m == n {
      SnocMembers(names, m);
    }
    RefreshUntouched(src, rep, init, n);
    var r', expected := Refresh(src, rep, names), CopyOne(src, Refresh(src, rep, init), n);
    assert r'.Keys == expected.Keys;
    forall m | m in r' ensures r'[m] == expected[m] {
    }
  }

  /** Over a distinct listing, comparing each file against the replica as
      the loop goes is the same as comparing it against the replica as the
      loop found it: no step touches a file that a later step looks at. */
  lemma {:induction false} CopyAllIsRefresh(src: Dir, rep: Dir, names: seq<string>)
    requires Distinct(names)
    requires forall n :: n in names ==> n in src
    ensures CopyAll(src, rep, names) == Refresh(src, rep, names)
    ensures CopyLog(src, rep, names) == CopyEvents(src, rep, names)
    decreases |names|
  {
    if names == [] {
      assert Refresh(src, rep, names) == rep;
    } else {
      var init := names[..|names| - 1];
      DistinctInit(names);
      CopyAllIsRefresh(src, rep, init);
      RefreshLast(src, rep, names);
    }
  }

  /** The copy/overwrite loop over a whole source listing leaves the
      replica holding every name of either folder. */
  lemma RefreshKeys(src: Dir, rep: Dir, names: seq<string>)
    requires IsListing(names, src.Keys)
    ensures Refresh(src, rep, names).Keys == rep.Keys + src.Keys
  {
  }

  /** One step of the orphan-delete loop. */
  lemma OrphanStep(src: Dir, names: seq<string>, j: nat)
    requires j < |names|
    ensures var n := names[j];
            && Orphans(src, names[..j + 1]) == Orphans(src, names[..j]) + (if n in src then {} else {n})
            && OrphanEvents(src, names[..j + 1])
               == OrphanEvents(src, names[..j]) + (if n in src then [] else [Event(Info, RemovedOrphan(n))])
  {
    var pre := names[..j + 1];
    assert pre[..|pre| - 1] == names[..j];
    assert forall m :: m in pre <==> m in names[..j] || m == names[j];
  }

  /** The copy/overwrite loop over a listing of the source, followed by
      the removal of the orphans of a listing of the replica it leaves,
      is the whole pass. */
  lemma CopyThenPruneIsMirror(src: Dir, rep: Dir, srcNames: seq<string>, repNames: seq<string>)
    requires IsListing(srcNames, src.Keys)
    requires IsListing(repNames, Refresh(src, rep, srcNames).Keys)
    ensures Refresh(src, rep, srcNames) - Orphans(src, repNames) == Mirror(src, rep)
  {
    var r := Refresh(src, rep, srcNames);
    assert r.Keys == rep.Keys + src.Keys;
    assert Orphans(src, repNames) == rep.Keys - src.Keys;
  }
}
