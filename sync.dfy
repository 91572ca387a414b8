/** The synchronizer's driver: the two folders and the log as mutable
    state, and the pass that mirrors the source folder onto the replica. */
module Sync {
  import opened Files
  import opened Events
  import opened Listing
  import opened SyncSpec
  import opened SyncProperties

  /** How a pass ends: the process exits because the source folder is
      missing, or the pass completes, having iterated over these listings
      of the source folder and of the replica folder. */
  datatype PassResult =
    | Exited
    | Completed(sourceListing: seq<string>, replicaListing: seq<string>)

  /** The piece of the file system the synchronizer works on. A folder
      that does not exist is None. */
  class FileSystem {
    var source: Option<Dir>
    var replica: Option<Dir>
    var log: seq<Event>

    constructor (source: Option<Dir>, replica: Option<Dir>)
      ensures this.source == source && this.replica == replica && log == []
    {
      this.source := source;
      this.replica := replica;
      log := [];
    }

    /** Appends a record to the log. */
    method Emit(level: Level, msg: Message)
      modifies this`log
      ensures log == old(log) + [Event(level, msg)]
    {
      log := log + [Event(level, msg)];
    }

    /** Creates the (empty) replica folder. */
    method MakeReplica()
      requires replica.None?
      modifies this`replica
      ensures replica == Some(map[])
    {
      replica := Some(map[]);
    }

    /** Removes file `n` from the replica folder. */
    method RemoveFile(n: string)
      requires replica.Some? && n in replica.value
      modifies this`replica
      ensures replica == Some(old(replica).value - {n})
    {
      replica := Some(replica.value - {n});
    }

    /** Copies source file `n` into the replica folder with its content and
      its modification time, replacing any file of that name. */
    method CopyFile(n: string)
      requires source.Some? && n in source.value && replica.Some?
      modifies this`replica
      ensures replica == Some(old(replica).value[n := source.value[n]])
    {
      replica := Some(replica.value[n := source.value[n]]);
    }

    /** The copy/overwrite loop's handling of source file `n`: copied
        when the replica has no file of its name; removed and copied anew
        when the replica's file compares unequal; otherwise left alone. */
    method CopyStep(n: string)
      requires source.Some? && replica.Some? && n in source.value
      modifies this`replica, this`log
      ensures replica == Some(CopyOne(source.value, old(replica).value, n))
      ensures log == old(log) + StepEvents(source.value, old(replica).value, n)
    {
      var src := source.value;
      ghost var rep := replica.value;
      if n in replica.value {
        if !Cmp(src[n], replica.value[n]) {
          RemoveFile(n);
          Emit(Info, RemovedStale(n));
          CopyFile(n);
          Emit(Info, Copied(n));
          assert (rep - {n})[n := src[n]] == rep[n := src[n]];
        }
      } else {
        CopyFile(n);
        Emit(Info, Copied(n));
      }
    }

    /** The copy/overwrite loop over the source listing `names`. */
    method CopyLoop(names: seq<string>)
      requires source.Some? && replica.Some?
      requires forall n :: n in names ==> n in source.value
      modifies this`replica, this`log
      ensures source == old(source)
      ensures replica == Some(CopyAll(source.value, old(replica).value, names))
      ensures log == old(log) + CopyLog(source.value, old(replica).value, names)
    {
      ghost var rep0, log0 := replica.value, log;
      var src := source.value;
      for i := 0 to |names|
        invariant source == Some(src)
        invariant replica == Some(CopyAll(src, rep0, names[..i]))
        invariant log == log0 + CopyLog(src, rep0, names[..i])
      {
        ghost var before, past := CopyAll(src, rep0, names[..i]), CopyLog(src, rep0, names[..i]);
        CopyAllStep(src, rep0, names, i);
        CopyStep(names[i]);
        AppendRegroup(log0, past, StepEvents(src, before, names[i]));
      }
      assert names[..|names|] == names;
    }

    /** The orphan-delete loop over the replica listing `names`: a replica
        file with no source file of its name is removed. */
    method OrphanLoop(names: seq<string>)
      requires source.Some? && replica.Some?
      requires Distinct(names) && forall n :: n in names ==> n in replica.value
      modifies this`replica, this`log
      ensures replica == Some(old(replica).value - Orphans(source.value, names))
      ensures log == old(log) + OrphanEvents(source.value, names)
    {
      ghost var rep0, log0 := replica.value, log;
      var src := source.value;
      assert Orphans(src, names[..0]) == {};
      assert rep0 - {} == rep0;
      for j := 0 to |names|
        invariant source == Some(src)
        invariant replica == Some(rep0 - Orphans(src, names[..j]))
        invariant log == log0 + OrphanEvents(src, names[..j])
      {
        var n := names[j];
        OrphanStep(src, names, j);
        ghost var gone := Orphans(src, names[..j]);
        if n !in src {
          assert n !in gone by {
            DistinctPrefix(names, j);
          }
          RemoveFile(n);
          Emit(Info, RemovedOrphan(n));
          AppendRegroup(log0, OrphanEvents(src, names[..j]), [Event(Info, RemovedOrphan(n))]);
          assert (rep0 - gone) - {n} == rep0 - (gone + {n});
        } else {
          assert gone + {} == gone;
        }
      }
      assert names[..|names|] == names;
    }

    /** The copy/overwrite loop, over a fresh listing of the source. */
    method CopyPhase() returns (names: seq<string>)
      requires source.Some? && replica.Some?
      modifies this`replica, this`log
      ensures IsListing(names, source.value.Keys)
      ensures replica == Some(Refresh(source.value, old(replica).value, names))
      ensures log == old(log) + CopyEvents(source.value, old(replica).value, names)
    {
      names := ListDir(source.value);
      CopyLoop(names);
      CopyAllIsRefresh(source.value, old(replica).value, names);
    }

    /** The orphan-delete loop, over a fresh listing of the replica. */
    method OrphanPhase() returns (names: seq<string>)
      requires source.Some? && replica.Some?
      modifies this`replica, this`log
      ensures IsListing(names, old(replica).value.Keys)
      ensures replica == Some(old(replica).value - Orphans(source.value, names))
      ensures log == old(log) + OrphanEvents(source.value, names)
    {
      names := ListDir(replica.value);
      OrphanLoop(names);
    }

    /** Creates the replica folder when it is missing, with a warning
        before and a note after. */
    method ReplicaBootstrap()
      modifies this`replica, this`log
      ensures replica == Some(Existing(old(replica)))
      ensures log == old(log) + BootEvents(old(replica))
    {
      if replica.None? {
        Emit(Warning, ReplicaNotFound);
        MakeReplica();
        Emit(Info, ReplicaCreated);
      }
    }

    /** The part of a pass after both folders are known to exist: the
        start record, the two loops, the end record. */
    method Mirroring() returns (srcNames: seq<string>, repNames: seq<string>)
      requires source.Some? && replica.Some?
      modifies this`replica, this`log
      ensures source == old(source)
      ensures IsListing(srcNames, source.value.Keys)
      ensures IsListing(repNames, source.value.Keys + old(replica).value.Keys)
      ensures replica == Some(Mirror(source.value, old(replica).value))
      ensures log == old(log) + MirrorEvents(source.value, old(replica).value, srcNames, repNames)
    {
      ghost var log0, rep0 := log, replica.value;
      var src := source.value;
      Emit(Info, StartSync);
      srcNames := CopyPhase();
      ghost var c := CopyEvents(src, rep0, srcNames);
      RefreshKeys(src, rep0, srcNames);
      repNames := OrphanPhase();
      ghost var o := OrphanEvents(src, repNames);
      CopyThenPruneIsMirror(src, rep0, srcNames, repNames);
      Emit(Info, FinishedSync);
      AppendAssoc(log0, [Event(Info, StartSync)], c, o, [Event(Info, FinishedSync)]);
    }

    /** One synchronization pass. A missing source folder ends the process
        after one error record and before anything else is touched. A
        missing replica folder is created empty first. Then the replica
        is made to mirror the source, and the pass is logged between its
        start and end records. The source folder is never changed. */
    method SyncPass() returns (result: PassResult)
      modifies this`replica, this`log
      ensures source == old(source)
      ensures result.Exited? <==> old(source).None?
      ensures old(source).None? ==>
                && replica == old(replica)
                && log == old(log) + [Event(Error, SourceNotFound)]
      ensures old(source).Some? ==>
                var src, rep := old(source).value, Existing(old(replica));
                && IsListing(result.sourceListing, src.Keys)
                && IsListing(result.replicaListing, src.Keys + rep.Keys)
                && replica == Some(Mirror(src, rep))
                && log == old(log) + PassEvents(src, old(replica), result.sourceListing, result.replicaListing)
    {
      if source.None? {
        Emit(Error, SourceNotFound);
        return Exited;
      }
      ghost var log0, rep0 := log, replica;
      var src := source.value;
      ReplicaBootstrap();
      ghost var rep := replica.value;
      assert rep == Existing(rep0);
      var srcNames, repNames := Mirroring();
      result := Completed(srcNames, repNames);
      AppendRegroup(log0, BootEvents(rep0), MirrorEvents(src, rep, srcNames, repNames));
    }

    /** The process's main loop, run for `passes` passes (the pause between
        passes is not modelled). The first pass does the work; every later
        pass logs only its start and its end. */
    method Run(passes: nat) returns (first: PassResult)
      requires passes >= 1
      modifies this`replica, this`log
      ensures source == old(source)
      ensures first.Exited? <==> old(source).None?
      ensures old(source).None? ==>
                && replica == old(replica)
                && log == old(log) + [Event(Error, SourceNotFound)]
      ensures old(source).Some? ==>
                var src, rep := old(source).value, Existing(old(replica));
                && IsListing(first.sourceListing, src.Keys)
                && IsListing(first.replicaListing, src.Keys + rep.Keys)
                && replica == Some(Mirror(src, rep))
                && log == old(log) + PassEvents(src, old(replica), first.sourceListing, first.replicaListing)
                          + QuietPasses(passes - 1)
    {
      first := SyncPass();
      if first.Exited? {
        return;
      }
      ghost var log1, src, rep := log, source.value, Existing(old(replica));
      var done := 1;
      while done < passes
        invariant 1 <= done <= passes
        invariant source == Some(src)
        invariant replica == Some(Mirror(src, rep))
        invariant log == log1 + QuietPasses(done - 1)
      {
        ghost var quiet := [Event(Info, StartSync), Event(Info, FinishedSync)];
        RepeatPass(src, rep);
        assert QuietPasses(done) == QuietPasses(done - 1) + quiet;
        AppendRegroup(log1, QuietPasses(done - 1), quiet);
        done := done + 1;
      }
    }

    /** A pass over folders that an earlier pass has mirrored, with no
        change in between: it changes nothing and logs only its start and
        its end. */
    method RepeatPass(ghost src: Dir, ghost rep: Dir)
      requires source == Some(src) && replica == Some(Mirror(src, rep))
      modifies this`replica, this`log
      ensures source == Some(src) && replica == Some(Mirror(src, rep))
      ensures log == old(log) + [Event(Info, StartSync), Event(Info, FinishedSync)]
    {
      var again := SyncPass();
      SecondPassQuiet(src, rep, again.sourceListing, again.replicaListing);
      MirrorIdempotent(src, rep);
    }
  }

  lemma AppendRegroup<T>(a: seq<T>, b: seq<T>, c: seq<T>)
    ensures a + b + c == a + (b + c)
  {
  }

  lemma AppendAssoc<T>(a: seq<T>, b: seq<T>, c: seq<T>, d: seq<T>, e: seq<T>)
    ensures a + b + c + d + e == a + (b + c + d + e)
  {
  }

  /** The log of `k` passes that have nothing to do. */
  function QuietPasses(k: nat): (r: seq<Event>)
    ensures |r| == 2 * k
    ensures forall i :: 0 <= i < |r| ==> r[i] == Event(Info, if i % 2 == 0 then StartSync else FinishedSync)
  {
    if k == 0 then [] else QuietPasses(k - 1) + [Event(Info, StartSync), Event(Info, FinishedSync)]
  }
}
