/**
  The abstract filesystem the program works on: a map from a path (the sequence of
  names from the root) to a regular file, known by its size, or a directory.
  The root `[]` is never a key; it is always an existing directory.
  Also here: what `os.walk`, `rm -rf` and `Path.mkdir(parents=True, exist_ok=True)` do to it.
 */
module Fs {

  type Name = string
  type Path = seq<Name>

  datatype Node = File(size: nat) | Dir

  type FS = map<Path, Node>

  /** `Path.parent`: the root is its own parent. */
  function Parent(p: Path): Path
  {
    if p == [] then [] else p[..|p| - 1]
  }

  /** `Path.name`: the last component, empty for the root. */
  function BaseName(p: Path): Name
  {
    if p == [] then "" else p[|p| - 1]
  }

  /** `Path.is_dir()`. */
  predicate IsDir(fs: FS, p: Path)
  {
    p == [] || (p in fs && fs[p].Dir?)
  }

  /** `Path.is_file()`. */
  predicate IsFile(fs: FS, p: Path)
  {
    p in fs && fs[p].File?
  }

  /** `os.path.exists`. */
  predicate Exists(fs: FS, p: Path)
  {
    p == [] || p in fs
  }

  /** The map is a tree: every entry hangs below a directory. (The triggers keep the solver
      from walking up the parents of every entry it meets.) */
  ghost predicate WF(fs: FS)
  {
    forall p {:trigger Parent(p) in fs} {:trigger IsDir(fs, Parent(p))} | p in fs :: p != [] && IsDir(fs, Parent(p))
  }

  /** In a tree every proper prefix of an entry is a directory entry. */
  lemma {:induction false} AncestorDir(fs: FS, p: Path, i: nat)
    requires WF(fs) && p in fs && 0 < i < |p|
    ensures p[..i] in fs && fs[p[..i]].Dir?
    decreases |p|
  {
    var q := Parent(p);
    assert q == p[..|p| - 1];
    if i < |q| {
      AncestorDir(fs, q, i);
      assert q[..i] == p[..i];
    }
  }

  /** Writing a regular file into an existing directory leaves a tree. */
  lemma AddFileWF(fs: FS, p: Path, n: nat)
    requires WF(fs) && p != [] && IsDir(fs, Parent(p)) && !IsDir(fs, p)
    ensures WF(fs[p := File(n)])
  {
    var r := fs[p := File(n)];
    forall q | q in r
      ensures q != [] && IsDir(r, Parent(q))
    {
      if q in fs && q != p {
        assert IsDir(fs, Parent(q));
      }
    }
  }

  /** Where `shutil.copy2(src, dst)` writes: into `dst`, under the source's name, when `dst` is
      a directory, and at `dst` otherwise. */
  function Landing(fs: FS, src: Path, dst: Path): Path
  {
    if IsDir(fs, dst) then dst + [BaseName(src)] else dst
  }

  /** `shutil.copy2(src, dst)` on a regular file: a file of the source's size at its landing place.
      Contents and metadata are not modelled. */
  function Copy2(fs: FS, src: Path, dst: Path): FS
    requires IsFile(fs, src)
  {
    fs[Landing(fs, src, dst) := File(fs[src].size)]
  }

  /** In a tree, `copy2` to a path whose parent is a directory leaves a tree, as long as it does not
      land on a directory. */
  lemma Copy2WF(fs: FS, src: Path, dst: Path)
    requires WF(fs) && IsFile(fs, src) && dst != [] && IsDir(fs, Parent(dst))
    requires !IsDir(fs, Landing(fs, src, dst))
    ensures Landing(fs, src, dst) != [] && WF(Copy2(fs, src, dst))
  {
    var q := Landing(fs, src, dst);
    if IsDir(fs, dst) {
      assert Parent(q) == dst;
    }
    AddFileWF(fs, q, fs[src].size);
  }

  // ---------------------------------------------------------------- sizes

  /** `st_size` of a regular file; nothing else has a size here. */
  function SizeOf(fs: FS, p: Path): nat
  {
    if IsFile(fs, p) then fs[p].size else 0
  }

  /** The total size of a set of paths, in no particular order. */
  ghost function SizeSum(fs: FS, ps: set<Path>): nat
    decreases ps
  {
    if ps == {} then 0 else var p :| p in ps; SizeOf(fs, p) + SizeSum(fs, ps - {p})
  }

  /** The sum does not depend on which element is taken out first. */
  lemma {:induction false} SizeSumRemove(fs: FS, ps: set<Path>, x: Path)
    requires x in ps
    ensures SizeSum(fs, ps) == SizeOf(fs, x) + SizeSum(fs, ps - {x})
    decreases ps
  {
    var y :| y in ps && SizeSum(fs, ps) == SizeOf(fs, y) + SizeSum(fs, ps - {y});
    if y != x {
      SizeSumRemove(fs, ps - {y}, x);
      SizeSumRemove(fs, ps - {x}, y);
      assert ps - {y} - {x} == ps - {x} - {y};
    }
  }

  lemma SizeSumAdd(fs: FS, ps: set<Path>, x: Path)
    requires x !in ps
    ensures SizeSum(fs, ps + {x}) == SizeSum(fs, ps) + SizeOf(fs, x)
  {
    SizeSumRemove(fs, ps + {x}, x);
    assert ps + {x} - {x} == ps;
  }

  /** The total of two disjoint sets is the sum of their totals. */
  lemma {:induction false} SizeSumUnion(fs: FS, a: set<Path>, b: set<Path>)
    requires a !! b
    ensures SizeSum(fs, a + b) == SizeSum(fs, a) + SizeSum(fs, b)
    decreases b
  {
    if b == {} {
      assert a + b == a;
    } else {
      var x :| x in b;
      SizeSumRemove(fs, b, x);
      SizeSumUnion(fs, a, b - {x});
      SizeSumAdd(fs, a + (b - {x}), x);
      assert a + (b - {x}) + {x} == a + b;
    }
  }

  /** Two filesystems that agree on the sizes of a set of paths give that set the same total. */
  lemma {:induction false} SizeSumAgree(fs: FS, fs': FS, ps: set<Path>)
    requires forall p | p in ps :: SizeOf(fs, p) == SizeOf(fs', p)
    ensures SizeSum(fs, ps) == SizeSum(fs', ps)
    decreases ps
  {
    if ps != {} {
      var p :| p in ps;
      SizeSumRemove(fs, ps, p);
      SizeSumRemove(fs', ps, p);
      SizeSumAgree(fs, fs', ps - {p});
    }
  }

  // ---------------------------------------------------------------- os.walk

  /** The regular files anywhere below `d` (hidden ones included). */
  function FilesUnder(fs: FS, d: Path): set<Path>
  {
    set p | p in fs && d < p && fs[p].File?
  }

  /** The directories anywhere below `d`. */
  function DirsUnder(fs: FS, d: Path): set<Path>
  {
    set p | p in fs && d < p && fs[p].Dir?
  }

  /** The `root`s that `os.walk(d)` yields: `d` itself and every directory below it. */
  function Walk(fs: FS, d: Path): set<Path>
  {
    {d} + DirsUnder(fs, d)
  }

  /** The `files` that `os.walk` yields with `root` `r`: its non-directory entries. */
  function FilesIn(fs: FS, r: Path): set<Path>
  {
    set p | p in fs && p != [] && Parent(p) == r && fs[p].File?
  }

  /** `os.walk` reaches every file below `d`: its parent is one of the walked roots. */
  lemma FileParentWalked(fs: FS, d: Path, f: Path)
    requires WF(fs) && f in FilesUnder(fs, d)
    ensures Parent(f) in Walk(fs, d) && f in FilesIn(fs, Parent(f))
  {
    if Parent(f) != d {
      assert d < Parent(f);
      assert Parent(f) in fs;
    }
  }

  /** The files of a walked root lie below the walk's start. */
  lemma FilesInWalked(fs: FS, d: Path, r: Path)
    requires r in Walk(fs, d)
    ensures FilesIn(fs, r) <= FilesUnder(fs, d)
  {
    forall p | p in FilesIn(fs, r)
      ensures d < p
    {
      assert p[..|r|] == r;
    }
  }

  // ---------------------------------------------------------------- rm -rf

  /** `rm -rf p`: `p` and everything below it disappear. */
  function RemoveTree(fs: FS, p: Path): (r: FS)
    ensures forall q :: q in r <==> q in fs && !(p <= q)
    ensures forall q | q in r :: r[q] == fs[q]
  {
    map q | q in fs && !(p <= q) :: fs[q]
  }

  /** Removing a subtree leaves a tree. */
  lemma RemoveTreeWF(fs: FS, p: Path)
    requires WF(fs)
    ensures WF(RemoveTree(fs, p))
  {
    var r := RemoveTree(fs, p);
    forall q | q in r
      ensures IsDir(r, Parent(q))
    {
      assert Parent(q) <= q;
      assert q in fs && IsDir(fs, Parent(q));
    }
  }

  /** In a tree, a missing path has nothing below it. */
  lemma {:induction false} MissingHasNoSubtree(fs: FS, p: Path, q: Path)
    requires WF(fs) && p != [] && p !in fs && q in fs
    ensures !(p <= q)
    decreases |q|
  {
    if p <= q && p != q {
      MissingHasNoSubtree(fs, p, Parent(q));
    }
  }

  /** In a tree nothing hangs below a regular file. */
  lemma FileAbove(fs: FS, p: Path, q: Path)
    requires WF(fs) && IsFile(fs, p) && IsDir(fs, q) && q != []
    ensures !(p <= q)
  {
    if p <= q && p != q {
      assert IsDir(fs, Parent(p)) && q[..|p|] == p;
      AncestorDir(fs, q, |p|);
    }
  }

  // ---------------------------------------------------------------- mkdir -p

  /** No prefix of `p` is a regular file: `mkdir(parents=True, exist_ok=True)` would fail on one. */
  predicate NoFileOnPath(fs: FS, p: Path)
  {
    forall i | 0 < i <= |p| :: !IsFile(fs, p[..i])
  }

  /** `Path(p).mkdir(parents=True, exist_ok=True)`: every missing prefix of `p` becomes a directory. */
  function MkdirAll(fs: FS, p: Path): (r: FS)
    requires NoFileOnPath(fs, p)
    ensures forall q :: q in r <==> q in fs || (q != [] && q <= p)
    ensures forall q | q in r :: r[q] == if q in fs then fs[q] else Dir
    ensures IsDir(r, p)
    decreases |p|
  {
    if p == [] then fs
    else
      assert NoFileOnPath(fs, Parent(p)) by {
        forall i | 0 < i <= |Parent(p)|
          ensures !IsFile(fs, Parent(p)[..i])
        {
          assert Parent(p)[..i] == p[..i];
        }
      }
      var r := MkdirAll(fs, Parent(p));
      var res := if p in r then r else r[p := Dir];
      assert forall q :: q in res <==> q in fs || (q != [] && q <= p) by {
        forall q
          ensures q in res <==> q in fs || (q != [] && q <= p)
        {
          PrefixOfParent(p, q);
        }
      }
      assert p[..|p|] == p;
      res
  }

  lemma PrefixOfParent(p: Path, q: Path)
    requires p != []
    ensures q <= p <==> q <= Parent(p) || q == p
  {
    if q <= p && q != p {
      assert q == p[..|q|];
    }
  }

  /** Below an existing directory, every proper prefix of a path is a directory entry. */
  lemma PrefixesAreDirs(fs: FS, p: Path, i: nat)
    requires WF(fs) && p != [] && IsDir(fs, Parent(p)) && 0 < i < |p|
    ensures p[..i] in fs && fs[p[..i]].Dir?
  {
    var q := Parent(p);
    assert q == p[..|p| - 1];
    assert q[..i] == p[..i];
    if i < |q| {
      AncestorDir(fs, q, i);
    }
  }

  /** Below an existing directory, `mkdir -p` creates at most the one missing directory. */
  lemma MkdirOne(fs: FS, p: Path)
    requires WF(fs) && p != [] && IsDir(fs, Parent(p)) && !IsFile(fs, p)
    ensures NoFileOnPath(fs, p)
    ensures MkdirAll(fs, p) == if p in fs then fs else fs[p := Dir]
  {
    forall i | 0 < i <= |p|
      ensures !IsFile(fs, p[..i])
    {
      if i < |p| {
        PrefixesAreDirs(fs, p, i);
      } else {
        assert p[..i] == p;
      }
    }
    var r := MkdirAll(fs, p);
    var e := if p in fs then fs else fs[p := Dir];
    forall q | q != [] && q <= p && q != p
      ensures q in fs
    {
      PrefixesAreDirs(fs, p, |q|);
      assert q == p[..|q|];
    }
    assert r.Keys == e.Keys;
  }

  lemma MkdirAllWF(fs: FS, p: Path)
    requires WF(fs) && NoFileOnPath(fs, p)
    ensures WF(MkdirAll(fs, p))
  {
    var r := MkdirAll(fs, p);
    forall q | q in r
      ensures q != [] && IsDir(r, Parent(q))
    {
      if q !in fs && Parent(q) != [] {
        assert Parent(q) <= p;
        assert Parent(q) == p[..|Parent(q)|];
      } else if q in fs {
        assert IsDir(fs, Parent(q));
      }
    }
  }
}
