/** Properties of a synchronization pass: what it copies, what it logs
    and in which order, and why a second pass has nothing to do. */
module SyncProperties {
  import opened Files
  import opened Events
  import opened Listing
  import opened SyncSpec

  /** Convergence: after a pass the replica holds the source's names, each
      file comparing equal to its source file, and each is either an exact
      copy of the source's or the replica's own file left untouched. */
  lemma MirrorConverges(src: Dir, rep: Dir, n: string)
    ensures n in Mirror(src, rep) <==> n in src
    ensures n in src ==> Cmp(src[n], Mirror(src, rep)[n])
    ensures n in src ==> Mirror(src, rep)[n] == src[n] || (n in rep && Mirror(src, rep)[n] == rep[n])
  {
  }

  /** After the copy/overwrite loop, every listed source file is in the
      replica and compares equal to its source file: it is an exact copy,
      or the replica's own file, left untouched because it compared equal. */
  lemma RefreshConverges(src: Dir, rep: Dir, names: seq<string>, n: string)
    requires forall m :: m in names ==> m in src
    requires n in names
    ensures n in Refresh(src, rep, names)
    ensures Cmp(src[n], Refresh(src, rep, names)[n])
    ensures || Refresh(src, rep, names)[n] == src[n]
            || (n in rep && Refresh(src, rep, names)[n] == rep[n] && Cmp(src[n], rep[n]))
  {
    CmpReflexive(src[n]);
  }

  /** Shallow mode lets a stale replica file survive a pass unnoticed: its
      bytes differ from the source file's, but size and modification time
      agree, so the pass neither copies nor logs anything for it. */
  lemma ShallowPassKeepsStaleFile()
    ensures var src, rep := map["f" := FileRec([0], 7)], map["f" := FileRec([1], 7)];
            && Mirror(src, rep)["f"] != src["f"]
            && PassEvents(src, Some(rep), ["f"], ["f"]) == [Event(Info, StartSync), Event(Info, FinishedSync)]
  {
    var src, rep := map["f" := FileRec([0], 7)], map["f" := FileRec([1], 7)];
    assert Cmp(src["f"], rep["f"]);
    assert CopyEvents(src, rep, ["f"]) == [] by {
      assert ["f"][..0] == [];
    }
    assert OrphanEvents(src, ["f"]) == [] by {
      assert ["f"][..0] == [];
    }
  }

  /** The shallow blind spot, for every pass: a replica file with its
      source file's size and modification time is kept as it is, whatever
      its bytes, and the pass writes no record about it. */
  lemma ShallowPassKeepsSameSignature(src: Dir, rep: Dir, srcNames: seq<string>, repNames: seq<string>, n: string)
    requires IsListing(srcNames, src.Keys)
    requires IsListing(repNames, src.Keys + rep.Keys)
    requires n in src && n in rep
    requires src[n].Size() == rep[n].Size() && src[n].mtime == rep[n].mtime
    ensures Mirror(src, rep)[n] == rep[n]
    ensures About(PassEvents(src, Some(rep), srcNames, repNames), n) == []
  {
    PassEventsAbout(src, Some(rep), srcNames, repNames, n);
  }

  /** A replica file that compares equal to its source file, by
      signature or by bytes, is left as it is, and the pass writes no
      record about it. */
  lemma EqualFileKept(src: Dir, rep: Dir, srcNames: seq<string>, repNames: seq<string>, n: string)
    requires IsListing(srcNames, src.Keys)
    requires IsListing(repNames, src.Keys + rep.Keys)
    requires n in src && n in rep && Cmp(src[n], rep[n])
    ensures Mirror(src, rep)[n] == rep[n]
    ensures About(PassEvents(src, Some(rep), srcNames, repNames), n) == []
  {
    PassEventsAbout(src, Some(rep), srcNames, repNames, n);
  }

  /** A replica file that compares unequal is wholly replaced by the
      source file, and the pass logs its removal and then its copy. */
  lemma StaleFileReplaced(src: Dir, rep: Dir, srcNames: seq<string>, repNames: seq<string>, n: string)
    requires IsListing(srcNames, src.Keys)
    requires IsListing(repNames, src.Keys + rep.Keys)
    requires n in src && n in rep && !Cmp(src[n], rep[n])
    ensures Mirror(src, rep)[n] == src[n]
    ensures About(PassEvents(src, Some(rep), srcNames, repNames), n)
            == [Event(Info, RemovedStale(n)), Event(Info, Copied(n))]
  {
    PassEventsAbout(src, Some(rep), srcNames, repNames, n);
  }

  /** The copy/overwrite loop writes only copy and stale-removal records,
      each about a listed file. */
  lemma {:induction false} CopyEventsKinds(src: Dir, rep: Dir, names: seq<string>)
    requires forall n :: n in names ==> n in src
    ensures forall k :: 0 <= k < |CopyEvents(src, rep, names)| ==>
              IsCopyEvent(CopyEvents(src, rep, names)[k]) && CopyEvents(src, rep, names)[k].msg.name in names
    decreases |names|
  {
    if names != [] {
      var init, last := names[..|names| - 1], names[|names| - 1];
      CopyEventsKinds(src, rep, init);
      var r, r0, step := CopyEvents(src, rep, names), CopyEvents(src, rep, init), StepEvents(src, rep, last);
      assert r == r0 + step;
      forall k | 0 <= k < |r| ensures IsCopyEvent(r[k]) && r[k].msg.name in names {
        if k < |r0| {
          assert r[k] == r0[k];
          assert r0[k].msg.name in init;
        } else {
          assert r[k] == step[k - |r0|];
        }
      }
    }
  }

  /** The orphan-delete loop writes only orphan-removal records, each
      about a listed name with no source file. */
  lemma {:induction false} OrphanEventsKinds(src: Dir, names: seq<string>)
    ensures forall k :: 0 <= k < |OrphanEvents(src, names)| ==>
              var e := OrphanEvents(src, names)[k];
              IsOrphanEvent(e) && e.msg.name in names && e.msg.name !in src
    decreases |names|
  {
    if names != [] {
      var init, last := names[..|names| - 1], names[|names| - 1];
      OrphanEventsKinds(src, init);
      var r, r0 := OrphanEvents(src, names), OrphanEvents(src, init);
      var step := if last in src then [] else [Event(Info, RemovedOrphan(last))];
      assert r == r0 + step;
      forall k | 0 <= k < |r| ensures IsOrphanEvent(r[k]) && r[k].msg.name in names && r[k].msg.name !in src {
        if k < |r0| {
          assert r[k] == r0[k];
          assert r0[k].msg.name in init;
        } else {
          assert r[k] == step[k - |r0|];
        }
      }
    }
  }

  /** Against an empty replica every listed source file is copied, one
      record each, in listing order. */
  lemma {:induction false} CopyEventsFromEmpty(src: Dir, names: seq<string>)
    requires forall n :: n in names ==> n in src
    ensures var r := CopyEvents(src, map[], names);
            |r| == |names| && forall k :: 0 <= k < |r| ==> r[k] == Event(Info, Copied(names[k]))
    decreases |names|
  {
    if names != [] {
      CopyEventsFromEmpty(src, names[..|names| - 1]);
    }
  }

  /** A copy/overwrite loop over files that all compare equal does and
      logs nothing. */
  lemma {:induction false} CopyEventsQuiet(src: Dir, rep: Dir, names: seq<string>)
    requires forall n :: n in names ==> n in src && !NeedsCopy(src, rep, n)
    ensures CopyEvents(src, rep, names) == []
    decreases |names|
  {
    if names != [] {
      var last := names[|names| - 1];
      assert last in names;
      CopyEventsQuiet(src, rep, names[..|names| - 1]);
    }
  }

  /** An orphan-delete loop over names that all have a source file does
      and logs nothing. */
  lemma {:induction false} OrphanEventsQuiet(src: Dir, names: seq<string>)
    requires forall n :: n in names ==> n in src
    ensures OrphanEvents(src, names) == []
    decreases |names|
  {
    if names != [] {
      var last := names[|names| - 1];
      assert last in names;
      OrphanEventsQuiet(src, names[..|names| - 1]);
    }
  }

  /** After a pass no source file needs copying any more: the exact copies
      compare equal to themselves, the untouched files were equal already. */
  lemma MirrorLeavesNothingToDo(src: Dir, rep: Dir, n: string)
    requires n in src
    ensures !NeedsCopy(src, Mirror(src, rep), n)
  {
  }

  /** A second pass over unchanged folders leaves the replica as it is. */
  lemma MirrorIdempotent(src: Dir, rep: Dir)
    ensures Mirror(src, Mirror(src, rep)) == Mirror(src, rep)
  {
    var m := Mirror(src, rep);
    forall n | n in src ensures Mirror(src, m)[n] == m[n] {
      MirrorConverges(src, rep, n);
      MirrorLeavesNothingToDo(src, rep, n);
    }
  }

  /** A second pass over unchanged folders copies and removes nothing: it
      logs only its start and its end. */
  lemma SecondPassQuiet(src: Dir, rep: Dir, srcNames: seq<string>, repNames: seq<string>)
    requires IsListing(srcNames, src.Keys)
    requires IsListing(repNames, src.Keys)
    ensures PassEvents(src, Some(Mirror(src, rep)), srcNames, repNames)
            == [Event(Info, StartSync), Event(Info, FinishedSync)]
  {
    var m := Mirror(src, rep);
    forall n | n in srcNames ensures n in src && !NeedsCopy(src, m, n) {
      MirrorConverges(src, rep, n);
      MirrorLeavesNothingToDo(src, rep, n);
    }
    CopyEventsQuiet(src, m, srcNames);
    OrphanEventsQuiet(src, repNames);
  }

  /** Once both folders exist, the records come in a fixed order: the
      start record, every copy/overwrite record, every orphan-removal
      record, the end record. */
  lemma MirrorOrdering(src: Dir, rep: Dir, srcNames: seq<string>, repNames: seq<string>)
    requires forall n :: n in srcNames ==> n in src
    ensures var e := MirrorEvents(src, rep, srcNames, repNames);
            && |e| >= 2
            && e[0] == Event(Info, StartSync)
            && e[|e| - 1] == Event(Info, FinishedSync)
            && (forall i :: 0 < i < |e| - 1 ==> IsCopyEvent(e[i]) || IsOrphanEvent(e[i]))
            && (forall i, j :: 0 <= i < j < |e| && IsOrphanEvent(e[i]) ==> !IsCopyEvent(e[j]))
  {
    var c, o := CopyEvents(src, rep, srcNames), OrphanEvents(src, repNames);
    CopyEventsKinds(src, rep, srcNames);
    OrphanEventsKinds(src, repNames);
    FramedOrdering(c, o);
  }

  /** Copy records, then orphan records, between a start and an end record. */
  lemma FramedOrdering(c: seq<Event>, o: seq<Event>)
    requires forall k :: 0 <= k < |c| ==> IsCopyEvent(c[k])
    requires forall k :: 0 <= k < |o| ==> IsOrphanEvent(o[k])
    ensures var e := [Event(Info, StartSync)] + c + o + [Event(Info, FinishedSync)];
            && |e| >= 2
            && e[0] == Event(Info, StartSync)
            && e[|e| - 1] == Event(Info, FinishedSync)
            && (forall i :: 0 < i < |e| - 1 ==> IsCopyEvent(e[i]) || IsOrphanEvent(e[i]))
            && (forall i, j :: 0 <= i < j < |e| && IsOrphanEvent(e[i]) ==> !IsCopyEvent(e[j]))
  {
    var e := [Event(Info, StartSync)] + c + o + [Event(Info, FinishedSync)];
    assert |e| == |c| + |o| + 2;
    assert forall k :: 0 <= k < |c| ==> e[k + 1] == c[k];
    assert forall k :: 0 <= k < |o| ==> e[k + 1 + |c|] == o[k];
    forall i | 0 < i < |e| - 1 ensures IsCopyEvent(e[i]) || IsOrphanEvent(e[i]) {
      if i <= |c| {
        assert e[i] == c[i - 1];
      } else {
        assert e[i] == o[i - 1 - |c|];
      }
    }
    forall i, j | 0 <= i < j < |e| && IsOrphanEvent(e[i]) ensures !IsCopyEvent(e[j]) {
      assert i > |c|;
      if j < |e| - 1 {
        assert e[j] == o[j - 1 - |c|];
      }
    }
  }

  /** A step of the copy/overwrite loop writes records about its own file only. */
  lemma StepEventsAbout(src: Dir, rep: Dir, m: string, n: string)
    requires m in src
    ensures About(StepEvents(src, rep, m), n) == if m == n then StepEvents(src, rep, m) else []
  {
    if m !in rep {
      AboutSingle(Event(Info, Copied(m)), n);
    } else if !Cmp(src[m], rep[m]) {
      AboutPair(Event(Info, RemovedStale(m)), Event(Info, Copied(m)), n);
      AboutSingle(Event(Info, RemovedStale(m)), n);
      AboutSingle(Event(Info, Copied(m)), n);
    }
  }

  /** Of the copy/overwrite loop's records, those about file `n` are the
      ones its own step writes: none when it compares equal, one copy when
      it is new, and a removal followed by a copy when it is stale. */
  lemma {:induction false} CopyEventsAbout(src: Dir, rep: Dir, names: seq<string>, n: string)
    requires Distinct(names)
    requires forall m :: m in names ==> m in src
    ensures About(CopyEvents(src, rep, names), n) == if n in names then StepEvents(src, rep, n) else []
    decreases |names|
  {
    if names != [] {
      var init := names[..|names| - 1];
      DistinctInit(names);
      CopyEventsAbout(src, rep, init, n);
      CopyEventsAboutLast(src, rep, names, n);
    }
  }

  /** The inductive step of `CopyEventsAbout`: one more name, not listed before. */
  lemma CopyEventsAboutLast(src: Dir, rep: Dir, names: seq<string>, n: string)
    requires names != []
    requires names[|names| - 1] !in names[..|names| - 1]
    requires forall m :: m in names ==> m in src
    requires About(CopyEvents(src, rep, names[..|names| - 1]), n)
             == if n in names[..|names| - 1] then StepEvents(src, rep, n) else []
    ensures About(CopyEvents(src, rep, names), n) == if n in names then StepEvents(src, rep, n) else []
  {
    CopyEventsSplit(src, rep, names, n);
    StepEventsAbout(src, rep, names[|names| - 1], n);
    SnocMembers(names, n);
  }

  /** The records about `n` of the copy/overwrite loop, split at its last step. */
  lemma CopyEventsSplit(src: Dir, rep: Dir, names: seq<string>, n: string)
    requires names != []
    requires forall m :: m in names ==> m in src
    ensures About(CopyEvents(src, rep, names), n)
            == About(CopyEvents(src, rep, names[..|names| - 1]), n)
               + About(StepEvents(src, rep, names[|names| - 1]), n)
  {
    var init, last := names[..|names| - 1], names[|names| - 1];
    AboutAppend(CopyEvents(src, rep, init), StepEvents(src, rep, last), n);
  }

  /** Of the orphan-delete loop's records, the one about file `n` is its
      removal, when `n` is listed and has no source file. */
  lemma {:induction false} OrphanEventsAbout(src: Dir, names: seq<string>, n: string)
    requires Distinct(names)
    ensures About(OrphanEvents(src, names), n)
            == if n in names && n !in src then [Event(Info, RemovedOrphan(n))] else []
    decreases |names|
  {
    if names != [] {
      var init := names[..|names| - 1];
      DistinctInit(names);
      OrphanEventsAbout(src, init, n);
      OrphanEventsAboutLast(src, names, n);
    }
  }

  /** The inductive step of `OrphanEventsAbout`: one more name, not listed before. */
  lemma OrphanEventsAboutLast(src: Dir, names: seq<string>, n: string)
    requires names != []
    requires names[|names| - 1] !in names[..|names| - 1]
    requires About(OrphanEvents(src, names[..|names| - 1]), n)
             == if n in names[..|names| - 1] && n !in src then [Event(Info, RemovedOrphan(n))] else []
    ensures About(OrphanEvents(src, names), n)
            == if n in names && n !in src then [Event(Info, RemovedOrphan(n))] else []
  {
    OrphanEventsSplit(src, names, n);
    OrphanStepAbout(src, names[|names| - 1], n);
    SnocMembers(names, n);
  }

  /** The records about `n` of the orphan-delete loop, split at its last step. */
  lemma OrphanEventsSplit(src: Dir, names: seq<string>, n: string)
    requires names != []
    ensures About(OrphanEvents(src, names), n)
            == About(OrphanEvents(src, names[..|names| - 1]), n)
               + About(if names[|names| - 1] in src then [] else [Event(Info, RemovedOrphan(names[|names| - 1]))], n)
  {
    var init, last := names[..|names| - 1], names[|names| - 1];
    var step := if last in src then [] else [Event(Info, RemovedOrphan(last))];
    assert OrphanEvents(src, names) == OrphanEvents(src, init) + step;
    AboutAppend(OrphanEvents(src, init), step, n);
  }

  /** A step of the orphan-delete loop writes records about its own name only. */
  lemma OrphanStepAbout(src: Dir, m: string, n: string)
    ensures About(if m in src then [] else [Event(Info, RemovedOrphan(m))], n)
            == if m == n && m !in src then [Event(Info, RemovedOrphan(m))] else []
  {
    if m !in src {
      AboutSingle(Event(Info, RemovedOrphan(m)), n);
    }
  }

  /** The bootstrap records concern no file. */
  lemma BootAboutNothing(rep: Option<Dir>, n: string)
    ensures About(BootEvents(rep), n) == []
  {
    if rep.None? {
      AboutPair(Event(Warning, ReplicaNotFound), Event(Info, ReplicaCreated), n);
      AboutSingle(Event(Warning, ReplicaNotFound), n);
      AboutSingle(Event(Info, ReplicaCreated), n);
    }
  }

  /** The start and end records concern no file. */
  lemma AboutBetweenStartAndEnd(c: seq<Event>, o: seq<Event>, n: string)
    ensures About([Event(Info, StartSync)] + c + o + [Event(Info, FinishedSync)], n) == About(c, n) + About(o, n)
  {
    var start, fin := [Event(Info, StartSync)], [Event(Info, FinishedSync)];
    var x, y := About(c, n), About(o, n);
    AboutSingle(Event(Info, StartSync), n);
    AboutSingle(Event(Info, FinishedSync), n);
    AboutAppend(start, c, n);
    assert About(start + c, n) == x by {
      assert [] + x == x;
    }
    AboutAppend(start + c, o, n);
    AboutAppend(start + c + o, fin, n);
    assert x + y + [] == x + y;
  }

  /** Once both folders exist, the records about file `n` are those of its
      copy/overwrite step followed by its orphan removal, as far as each
      applies. */
  lemma MirrorEventsAbout(src: Dir, rep: Dir, srcNames: seq<string>, repNames: seq<string>, n: string)
    requires Distinct(srcNames) && Distinct(repNames)
    requires forall m :: m in srcNames ==> m in src
    ensures About(MirrorEvents(src, rep, srcNames, repNames), n)
            == (if n in srcNames then StepEvents(src, rep, n) else [])
               + (if n in repNames && n !in src then [Event(Info, RemovedOrphan(n))] else [])
  {
    var c, o := CopyEvents(src, rep, srcNames), OrphanEvents(src, repNames);
    AboutBetweenStartAndEnd(c, o, n);
    CopyEventsAbout(src, rep, srcNames, n);
    OrphanEventsAbout(src, repNames, n);
  }

  /** What a whole pass logs about one file: for a source file, what its
      copy/overwrite step writes against the replica as the pass found it;
      for a replica file with no source file, its removal; for any other
      name, nothing. */
  lemma PassEventsAbout(src: Dir, rep: Option<Dir>, srcNames: seq<string>, repNames: seq<string>, n: string)
    requires IsListing(srcNames, src.Keys)
    requires IsListing(repNames, src.Keys + Existing(rep).Keys)
    ensures n in src ==> About(PassEvents(src, rep, srcNames, repNames), n) == StepEvents(src, Existing(rep), n)
    ensures n !in src ==> About(PassEvents(src, rep, srcNames, repNames), n)
                          == if n in Existing(rep) then [Event(Info, RemovedOrphan(n))] else []
  {
    BootAboutNothing(rep, n);
    MirrorEventsAbout(src, Existing(rep), srcNames, repNames, n);
    AboutAppend(BootEvents(rep), MirrorEvents(src, Existing(rep), srcNames, repNames), n);
  }

  /** Mirroring onto an empty replica copies the source folder. */
  lemma MirrorOfEmpty(src: Dir)
    ensures Mirror(src, map[]) == src
  {
    var m := Mirror(src, map[]);
    forall n | n in src ensures m[n] == src[n] {
    }
  }

  /** A pass that finds no replica folder creates it and copies every
      source file into it, one copy record per file in listing order and
      no removal. */
  lemma FreshReplicaGetsEverything(src: Dir, srcNames: seq<string>, repNames: seq<string>)
    requires IsListing(srcNames, src.Keys)
    requires IsListing(repNames, src.Keys)
    ensures Mirror(src, map[]) == src
    ensures PassEvents(src, None, srcNames, repNames)
            == [Event(Warning, ReplicaNotFound), Event(Info, ReplicaCreated), Event(Info, StartSync)]
               + seq(|srcNames|, k requires 0 <= k < |srcNames| => Event(Info, Copied(srcNames[k])))
               + [Event(Info, FinishedSync)]
  {
    MirrorOfEmpty(src);
    var c := CopyEvents(src, map[], srcNames);
    var copies := seq(|srcNames|, k requires 0 <= k < |srcNames| => Event(Info, Copied(srcNames[k])));
    assert c == copies by {
      CopyEventsFromEmpty(src, srcNames);
    }
    assert OrphanEvents(src, repNames) == [] by {
      OrphanEventsQuiet(src, repNames);
    }
    FreshLogLayout(c);
  }

  /** Helper: regrouping the records of a pass that creates the replica
      and removes nothing. */
  lemma FreshLogLayout(c: seq<Event>)
    ensures BootEvents(None) + ([Event(Info, StartSync)] + c + [] + [Event(Info, FinishedSync)])
            == [Event(Warning, ReplicaNotFound), Event(Info, ReplicaCreated), Event(Info, StartSync)]
               + c + [Event(Info, FinishedSync)]
  {
  }

  /** Mirroring onto a replica that shares no name with the source copies
      the source folder. */
  lemma MirrorOfDisjoint(src: Dir, rep: Dir)
    requires src.Keys !! rep.Keys
    ensures Mirror(src, rep) == src
  {
    var m := Mirror(src, rep);
    forall n | n in src ensures m[n] == src[n] {
    }
  }

  /** Source {a.txt}, replica {b.txt}: the pass leaves the replica {a.txt}
      with the source's file, logging the copy of a.txt before the removal
      of b.txt, whichever order the replica is listed in. */
  lemma CopyBeforeRemoveExample(a: FileRec, b: FileRec, repNames: seq<string>)
    requires repNames == ["a.txt", "b.txt"] || repNames == ["b.txt", "a.txt"]
    ensures var src, rep := map["a.txt" := a], map["b.txt" := b];
            && Mirror(src, rep) == src
            && PassEvents(src, Some(rep), ["a.txt"], repNames)
               == [Event(Info, StartSync), Event(Info, Copied("a.txt")),
                   Event(Info, RemovedOrphan("b.txt")), Event(Info, FinishedSync)]
  {
    var src, rep := map["a.txt" := a], map["b.txt" := b];
    MirrorOfDisjoint(src, rep);
    ExampleLog(src, rep, repNames);
  }

  /** Helper: the log of the example, for either listing order. */
  lemma ExampleLog(src: Dir, rep: Dir, repNames: seq<string>)
    requires "a.txt" in src && "a.txt" !in rep && "b.txt" !in src
    requires repNames == ["a.txt", "b.txt"] || repNames == ["b.txt", "a.txt"]
    ensures PassEvents(src, Some(rep), ["a.txt"], repNames)
            == [Event(Info, StartSync), Event(Info, Copied("a.txt")),
                Event(Info, RemovedOrphan("b.txt")), Event(Info, FinishedSync)]
  {
    CopyEventsSingle(src, rep, "a.txt");
    OrphanOfPair(src, repNames);
    FrameLayout([Event(Info, Copied("a.txt"))], [Event(Info, RemovedOrphan("b.txt"))]);
  }

  /** Helper: the copy/overwrite records over a one-name listing. */
  lemma CopyEventsSingle(src: Dir, rep: Dir, n: string)
    requires n in src
    ensures CopyEvents(src, rep, [n]) == StepEvents(src, rep, n)
  {
    assert [n][..0] == [];
  }

  /** Helper: the log of a pass over an existing replica with one copy
      record and one removal record. */
  lemma FrameLayout(c: seq<Event>, o: seq<Event>)
    requires |c| == 1 && |o| == 1
    ensures BootEvents(Some(map[])) + ([Event(Info, StartSync)] + c + o + [Event(Info, FinishedSync)])
            == [Event(Info, StartSync), c[0], o[0], Event(Info, FinishedSync)]
  {
  }

  /** Helper: the orphan records of the example, for either listing order. */
  lemma OrphanOfPair(src: Dir, repNames: seq<string>)
    requires "a.txt" in src && "b.txt" !in src
    requires repNames == ["a.txt", "b.txt"] || repNames == ["b.txt", "a.txt"]
    ensures OrphanEvents(src, repNames) == [Event(Info, RemovedOrphan("b.txt"))]
  {
    var init := repNames[..1];
    assert init[..0] == [];
    if repNames == ["a.txt", "b.txt"] {
      assert init == ["a.txt"];
      assert OrphanEvents(src, init) == [];
    } else {
      assert init == ["b.txt"];
      assert OrphanEvents(src, init) == [Event(Info, RemovedOrphan("b.txt"))];
    }
  }
}
