/** Listing a folder: each of its names exactly once, in an order the
    operating system chooses. */
module Listing {
  import opened Files

  /** No name occurs twice in `s`. */
  predicate Distinct(s: seq<string>) {
    forall i, j :: 0 <= i < j < |s| ==> s[i] != s[j]
  }

  /** `names` lists the set `keys`: every member once, nothing else. */
  predicate IsListing(names: seq<string>, keys: set<string>) {
    && Distinct(names)
    && (forall n :: n in names ==> n in keys)
    && (forall n :: n in keys ==> n in names)
  }

  /** The folder's directory listing. The order is left to the choice
      made at each step, as the operating system leaves it unspecified. */
  method ListDir(d: Dir) returns (names: seq<string>)
    ensures IsListing(names, d.Keys)
  {
    names := [];
    var rest := d.Keys;
    while rest != {}
      invariant rest <= d.Keys
      invariant forall n :: n in names <==> n in d.Keys && n !in rest
      invariant Distinct(names)
      decreases |rest|
    {
      var n :| n in rest;
      names := names + [n];
      rest := rest - {n};
    }
  }

  /** In a distinct sequence, no element occurs before its own position. */
  lemma DistinctPrefix(names: seq<string>, j: nat)
    requires Distinct(names) && j < |names|
    ensures names[j] !in names[..j]
  {
    forall k | 0 <= k < j ensures names[..j][k] != names[j] {
      assert names[k] != names[j];
    }
  }

  /** Dropping the last name of a distinct sequence. */
  lemma DistinctInit(names: seq<string>)
    requires Distinct(names) && names != []
    ensures Distinct(names[..|names| - 1])
    ensures names[|names| - 1] !in names[..|names| - 1]
  {
    DistinctPrefix(names, |names| - 1);
  }

  /** The members of a non-empty sequence: those before its last element,
      and that element. */
  lemma SnocMembers(names: seq<string>, n: string)
    requires names != []
    ensures n in names <==> n in names[..|names| - 1] || n == names[|names| - 1]
  {
    assert names == names[..|names| - 1] + [names[|names| - 1]];
  }
}
