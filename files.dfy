/** Plain files as the synchronizer sees them, and the shallow
    comparison it uses to decide whether a replica file is stale. */
module Files {

  datatype Option<T> = None | Some(value: T)

  newtype byte = x: int | 0 <= x < 256

  /** A regular file: its bytes and its modification time.
      The size the operating system reports is the length of the content. */
  datatype FileRec = FileRec(content: seq<byte>, mtime: int) {
    function Size(): nat { |content| }
  }

  /** A folder: the regular files directly inside it, by name. */
  type Dir = map<string, FileRec>

  /** The folder, or the empty folder when there is none. */
  function Existing(d: Option<Dir>): Dir {
    if d.Some? then d.value else map[]
  }

  /** File comparison in shallow mode: two files whose (size, mtime)
      signatures agree are equal without reading them; files of different
      sizes are unequal; otherwise their bytes decide. */
  predicate Cmp(a: FileRec, b: FileRec)
    // never reports a mismatch for identical bytes
    ensures a.content == b.content ==> Cmp(a, b)
    // equal signatures are a match, whatever the bytes
    ensures a.Size() == b.Size() && a.mtime == b.mtime ==> Cmp(a, b)
    // a match means equal sizes, and equal times or equal bytes
    ensures Cmp(a, b) ==> a.Size() == b.Size() && (a.mtime == b.mtime || a.content == b.content)
  {
    if a.Size() == b.Size() && a.mtime == b.mtime then true
    else if a.Size() != b.Size() then false
    else a.content == b.content
  }

  /** A file compares equal to an exact copy of itself (what a
      metadata-preserving copy produces). */
  lemma CmpReflexive(a: FileRec)
    ensures Cmp(a, a)
  {
  }

  /** The price of shallow mode: an edit that keeps the size and the
      modification time goes unnoticed. */
  lemma ShallowCmpMissesEdit()
    ensures var a, b := FileRec([0], 7), FileRec([1], 7);
            a.content != b.content && Cmp(a, b)
  {
  }
}
