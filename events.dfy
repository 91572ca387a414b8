/** The log records a synchronization pass writes. */
module Events {

  datatype Level = Info | Warning | Error

  /** What a record reports; file names are bare names within the folders. */
  datatype Message =
    | SourceNotFound               // source folder absent, pass not run
    | ReplicaNotFound              // replica folder absent
    | ReplicaCreated               // replica folder made
    | StartSync                    // pass begins
    | RemovedStale(name: string)   // replica file removed: it does not match the source file
    | Copied(name: string)         // source file copied into the replica
    | RemovedOrphan(name: string)  // replica file removed: no source file of that name
    | FinishedSync                 // pass ends

  datatype Event = Event(level: Level, msg: Message)

  /** A record of the copy/overwrite loop. */
  predicate IsCopyEvent(e: Event) {
    e.level == Info && (e.msg.RemovedStale? || e.msg.Copied?)
  }

  /** A record of the orphan-delete loop. */
  predicate IsOrphanEvent(e: Event) {
    e.level == Info && e.msg.RemovedOrphan?
  }

  /** The record reports an action on the file called `n`. */
  predicate Concerns(e: Event, n: string) {
    match e.msg
    case RemovedStale(m) => m == n
    case Copied(m) => m == n
    case RemovedOrphan(m) => m == n
    case _ => false
  }

  /** The records of `es` that report actions on the file called `n`, in order. */
  function About(es: seq<Event>, n: string): (r: seq<Event>)
    ensures |r| <= |es|
    decreases |es|
  {
    if es == [] then []
    else About(es[..|es| - 1], n) + (if Concerns(es[|es| - 1], n) then [es[|es| - 1]] else [])
  }

  lemma AboutSingle(e: Event, n: string)
    ensures About([e], n) == if Concerns(e, n) then [e] else []
  {
    assert [e][..0] == [];
  }

  lemma AboutPair(e: Event, e': Event, n: string)
    ensures About([e, e'], n) == About([e], n) + About([e'], n)
  {
    assert [e, e'][..1] == [e];
  }

  lemma {:induction false} AboutAppend(a: seq<Event>, b: seq<Event>, n: string)
    ensures About(a + b, n) == About(a, n) + About(b, n)
    decreases |b|
  {
    if b == [] {
      assert a + b == a;
    } else {
      var last := b[|b| - 1];
      assert (a + b)[..|a + b| - 1] == a + b[..|b| - 1];
      AboutAppend(a, b[..|b| - 1], n);
    }
  }
}
