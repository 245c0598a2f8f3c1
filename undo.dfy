/**
  What `undo_last` (termuxport.py:156-167) does to the filesystem: every path listed in
  the undo file that exists is removed together with everything below it.
 */
module Undo {
  import opened Fs

  /** Whether `rm -rf` on the listed path `p` reaches the entry `q`. `rm` refuses to remove
      the root (`--preserve-root` is its default), so a root entry in the list reaches nothing. */
  predicate Reaches(p: Path, q: Path)
  {
    p != [] && p <= q
  }

  /** The loop of `undo_last` (lines 160-164), one listed path after the other. */
  function RemoveListed(fs: FS, ps: seq<Path>): FS
    decreases |ps|
  {
    if ps == [] then fs
    else
      var r := RemoveListed(fs, ps[..|ps| - 1]);
      var p := ps[|ps| - 1];
      if p != [] && p in r then RemoveTree(r, p) else r
  }

  /** Some listed path reaches `q`. */
  ghost predicate Covered(ps: seq<Path>, q: Path)
  {
    exists k | 0 <= k < |ps| :: Reaches(ps[k], q)
  }

  /** A path is covered by a list when the list without its last entry covers it or the
      last entry reaches it. */
  lemma CoveredSplit(ps: seq<Path>, q: Path)
    requires ps != []
    ensures Covered(ps, q) <==> Covered(ps[..|ps| - 1], q) || Reaches(ps[|ps| - 1], q)
  {
    var init := ps[..|ps| - 1];
    if Covered(ps, q) && !Reaches(ps[|ps| - 1], q) {
      var k :| 0 <= k < |ps| && Reaches(ps[k], q);
      assert init[k] == ps[k];
    }
    if Covered(init, q) {
      var k :| 0 <= k < |init| && Reaches(init[k], q);
      assert ps[k] == init[k];
    }
  }

  /** What is left is a part of what was there, unchanged; no listed path is left; and
      whatever no listed path reaches is left. */
  lemma {:induction false} RemoveListedSpec(fs: FS, ps: seq<Path>)
    ensures forall q | q in RemoveListed(fs, ps) :: q in fs && RemoveListed(fs, ps)[q] == fs[q]
    ensures forall k | 0 <= k < |ps| && ps[k] != [] :: ps[k] !in RemoveListed(fs, ps)
    ensures forall q | q in fs && !Covered(ps, q) :: q in RemoveListed(fs, ps)
    decreases |ps|
  {
    if ps != [] {
      var init := ps[..|ps| - 1];
      RemoveListedSpec(fs, init);
      forall k | 0 <= k < |ps| - 1
        ensures ps[k] == init[k]
      {
      }
      forall q | q in fs && !Covered(ps, q)
        ensures !Covered(init, q) && !Reaches(ps[|ps| - 1], q)
      {
        CoveredSplit(ps, q);
      }
    }
  }

  /** Removing listed paths from a tree leaves a tree. */
  lemma {:induction false} RemoveListedWF(fs: FS, ps: seq<Path>)
    requires WF(fs)
    ensures WF(RemoveListed(fs, ps))
    decreases |ps|
  {
    if ps != [] {
      var init := ps[..|ps| - 1];
      RemoveListedWF(fs, init);
      RemoveTreeWF(RemoveListed(fs, init), ps[|ps| - 1]);
    }
  }

  /** In a tree, what is left is exactly what no listed path reaches. */
  lemma {:induction false} RemoveListedExact(fs: FS, ps: seq<Path>, q: Path)
    requires WF(fs)
    ensures q in RemoveListed(fs, ps) <==> q in fs && !Covered(ps, q)
    decreases |ps|
  {
    if ps != [] {
      var init := ps[..|ps| - 1];
      var p := ps[|ps| - 1];
      var r := RemoveListed(fs, init);
      RemoveListedExact(fs, init, q);
      RemoveListedWF(fs, init);
      CoveredSplit(ps, q);
      if p != [] && p !in r && q in r {
        MissingHasNoSubtree(r, p, q);
      }
    }
  }

  /** Undoing twice with the same list removes nothing more. */
  lemma RemoveListedIdempotent(fs: FS, ps: seq<Path>)
    requires WF(fs)
    ensures RemoveListed(RemoveListed(fs, ps), ps) == RemoveListed(fs, ps)
  {
    var r := RemoveListed(fs, ps);
    RemoveListedSpec(fs, ps);
    RemoveListedSpec(r, ps);
    RemoveListedWF(fs, ps);
    forall q
      ensures q in RemoveListed(r, ps) <==> q in r
    {
      RemoveListedExact(fs, ps, q);
      RemoveListedExact(r, ps, q);
    }
  }

  /** When every listed path lies strictly below `base`, the undo leaves alone everything that
      is not below `base`. */
  lemma RemoveListedOutside(fs: FS, ps: seq<Path>, base: Path, q: Path)
    requires forall k | 0 <= k < |ps| :: base < ps[k]
    requires !(base < q)
    ensures q in RemoveListed(fs, ps) <==> q in fs
    ensures q in fs ==> RemoveListed(fs, ps)[q] == fs[q]
  {
    RemoveListedSpec(fs, ps);
    assert !Covered(ps, q);
  }
}
