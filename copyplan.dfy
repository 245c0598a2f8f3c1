/**
  What `copy_with_progress` (termuxport.py:110-137) does to the filesystem, stated as
  functions: where each source file lands, which directories the walk creates, and the
  filesystem after one item and after a whole selection.
 */
module CopyPlan {
  import opened Fs
  import opened Sizes

  // ---------------------------------------------------------------- where things land

  /** `dest / Path(src).relative_to(item.parent)`: a path at or below `item` lands at the same
      place relative to `dest` as it has relative to the item's parent. For the item itself
      this is `dest / item.name`. */
  function DestFor(item: Path, dest: Path, src: Path): (q: Path)
    requires Parent(item) <= src
    ensures |q| == |dest| + |src| - |Parent(item)|
  {
    dest + src[|Parent(item)|..]
  }

  /** The inverse of `DestFor`: the source a path below `dest` was copied from. */
  function SourceFor(item: Path, dest: Path, dst: Path): Path
    requires dest <= dst
  {
    Parent(item) + dst[|dest|..]
  }

  lemma SourceOfDest(item: Path, dest: Path, src: Path)
    requires Parent(item) <= src
    ensures SourceFor(item, dest, DestFor(item, dest, src)) == src
  {
    var q := DestFor(item, dest, src);
    assert q[|dest|..] == src[|Parent(item)|..];
    assert Parent(item) + src[|Parent(item)|..] == src;
  }

  lemma DestOfSource(item: Path, dest: Path, dst: Path)
    requires dest <= dst
    ensures DestFor(item, dest, SourceFor(item, dest, dst)) == dst
  {
    var s := SourceFor(item, dest, dst);
    assert s[|Parent(item)|..] == dst[|dest|..];
    assert dest + dst[|dest|..] == dst;
  }

  /** Different sources of one item land at different places. */
  lemma DestForInjective(item: Path, dest: Path, a: Path, b: Path)
    requires Parent(item) <= a && Parent(item) <= b
    requires DestFor(item, dest, a) == DestFor(item, dest, b)
    ensures a == b
  {
    SourceOfDest(item, dest, a);
    SourceOfDest(item, dest, b);
  }

  /** The parent of where a path lands is where its parent lands. */
  lemma DestForParent(item: Path, dest: Path, src: Path)
    requires Parent(item) < src
    ensures Parent(item) <= Parent(src)
    ensures Parent(DestFor(item, dest, src)) == DestFor(item, dest, Parent(src))
  {
    assert Parent(src) == src[..|src| - 1];
    assert Parent(item) == src[..|Parent(item)|];
  }

  /** Everything at or below an item that is not the root lands strictly below `dest`. */
  lemma DestBelow(item: Path, dest: Path, src: Path)
    requires item != [] && item <= src
    ensures Parent(item) <= src && dest < DestFor(item, dest, src)
  {
    assert Parent(item) == item[..|item| - 1];
  }

  /** Two prefixes of one path are prefixes of each other. */
  lemma PrefixesComparable(a: Path, b: Path, s: Path)
    requires a <= s && b <= s
    ensures a <= b || b <= a
  {
    if |a| <= |b| {
      assert a == s[..|a|] && b[..|a|] == s[..|a|];
    } else {
      assert b == s[..|b|] && a[..|b|] == s[..|b|];
    }
  }

  /** The item and the place of its copy, `dest / item.name`, do not contain each other:
      `dest` is not the item or below it, and `dest / item.name` is not the item or above it.
      A `dest` above the item's parent is allowed, as long as the item's name is not the step of
      the item's path just below `dest`. */
  predicate Disjoint(item: Path, dest: Path)
  {
    !(item <= dest) && !(dest + [BaseName(item)] <= item)
  }

  /** The copy of `x`, which goes to `dest / x.name`, does not write at or above `y`. */
  predicate LandsApart(x: Path, dest: Path, y: Path)
  {
    !(dest + [BaseName(x)] <= y)
  }

  /** The copy of a non-root item goes to `dest / item.name`, a child of `dest`. */
  lemma ItemBase(item: Path, dest: Path)
    requires item != []
    ensures Parent(item) <= item
    ensures DestFor(item, dest, item) == dest + [BaseName(item)]
    ensures Parent(dest + [BaseName(item)]) == dest
  {
    assert Parent(item) == item[..|item| - 1];
    assert item[|Parent(item)|..] == [BaseName(item)];
  }

  /** A prefix of a child of `dest` other than the child is a prefix of `dest`. */
  lemma ShortPrefix(y: Path, dest: Path, base: Path)
    requires base != [] && Parent(base) == dest && y <= base && y != base
    ensures y <= dest
  {
    assert |y| < |base|;
    assert y == base[..|y|];
  }

  /** Nothing at or below a child `base` of `dest` is at or below an item disjoint from `dest`,
      unless `base` is at or above the item. */
  lemma DisjointRegion(y: Path, dest: Path, base: Path, q: Path)
    requires Disjoint(y, dest) && base != [] && Parent(base) == dest && !(base <= y) && y <= q
    ensures !(base <= q)
  {
    if base <= q {
      PrefixesComparable(base, y, q);
      ShortPrefix(y, dest, base);
    }
  }

  /** What the copy of an item writes, at or below `dest / item.name`, is never at or below
      the item itself. */
  lemma OutsideItem(item: Path, dest: Path, q: Path)
    requires Disjoint(item, dest) && dest + [BaseName(item)] <= q
    ensures !(item <= q)
  {
    assert item != [];
    ItemBase(item, dest);
    if item <= q {
      DisjointRegion(item, dest, dest + [BaseName(item)], q);
    }
  }

  // ---------------------------------------------------------------- the plan of one item

  /** The files an item is copied from and where each lands. */
  function DestSet(item: Path, dest: Path, srcs: set<Path>): set<Path>
  {
    set s | s in srcs && Parent(item) <= s :: DestFor(item, dest, s)
  }

  /** The `(source, destination)` pairs of one item. */
  function PairsOf(fs: FS, item: Path, dest: Path): set<(Path, Path)>
  {
    PairSet(item, dest, Sources(fs, item))
  }

  function PairSet(item: Path, dest: Path, srcs: set<Path>): set<(Path, Path)>
  {
    set s | s in srcs && Parent(item) <= s :: (s, DestFor(item, dest, s))
  }

  /** The files copied once the walk has reached the roots `done`. */
  function FilesOfRoots(fs: FS, done: set<Path>): set<Path>
  {
    set f | f in fs && f != [] && Parent(f) in done && fs[f].File?
  }

  /** The filesystem once the walk of the directory `item` has created the destination of every
      root in `dirs` and copied every file in `files`: copied files hold their source's size,
      created directories are new `Dir` entries, everything else is as in `fs`. */
  function Overlay(fs: FS, item: Path, dest: Path, dirs: set<Path>, files: set<Path>): FS
  {
    var fd := DestSet(item, dest, files);
    var dd := DestSet(item, dest, dirs);
    map q | q in fs.Keys + dd + fd ::
      if q in fd && dest <= q then File(SizeOf(fs, SourceFor(item, dest, q)))
      else if q in fs then fs[q] else Dir
  }

  /** What copying one item does: a file is copied to `dest / item.name`; a directory has
      every directory below it (itself included) re-created below `dest` and every file below
      it copied there; an item that does not exist is skipped. */
  function ItemCopied(fs: FS, item: Path, dest: Path): FS
  {
    if IsFile(fs, item) then
      assert Parent(item) <= item;
      fs[DestFor(item, dest, item) := File(fs[item].size)]
    else if IsDir(fs, item) then Overlay(fs, item, dest, Walk(fs, item), FilesUnder(fs, item))
    else fs
  }

  /** What the copy of one item needs from the state it starts in: a tree with `dest` a
      directory; the item and `dest / item.name` apart (otherwise the walk reads its own output,
      the copy lands inside the item, or files land next to the item or onto themselves); no file in the way of a directory the walk creates
      (`mkdir` raises on one); and no directory where a file is copied (`copy2` would put the
      file inside it). */
  ghost predicate ItemCopyable(fs: FS, item: Path, dest: Path)
  {
    WF(fs) && IsDir(fs, dest) && Disjoint(item, dest) &&
    (IsFile(fs, item) ==> Parent(item) <= item && !IsDir(fs, DestFor(item, dest, item))) &&
    (!IsFile(fs, item) && IsDir(fs, item) ==>
      (forall r | r in Walk(fs, item) :: Parent(item) <= r && !IsFile(fs, DestFor(item, dest, r))) &&
      (forall f | f in FilesUnder(fs, item) :: Parent(item) <= f && !IsDir(fs, DestFor(item, dest, f))))
  }

  // ---------------------------------------------------------------- the walk, step by step

  /** The situation the walk of a directory item starts from. */
  ghost predicate TreeCopy(fs: FS, item: Path, dest: Path)
  {
    ItemCopyable(fs, item, dest) && IsDir(fs, item) && !IsFile(fs, item)
  }

  /** A walked root is the item or a directory below it. */
  lemma WalkedRoot(fs: FS, item: Path, dest: Path, r: Path)
    requires TreeCopy(fs, item, dest) && r in Walk(fs, item)
    ensures item != [] && item <= r && Parent(item) <= r && r in fs && fs[r].Dir?
  {
  }

  /** The parent of a walked root other than the item is a walked root. */
  lemma WalkParent(fs: FS, item: Path, dest: Path, r: Path)
    requires TreeCopy(fs, item, dest) && r in Walk(fs, item) && r != item
    ensures Parent(r) in Walk(fs, item) && |Parent(r)| < |r|
  {
    assert item < r;
    assert item <= Parent(r) by {
      assert Parent(r) == r[..|r| - 1];
    }
    if Parent(r) != item {
      assert IsDir(fs, Parent(r));
    }
  }

  /** The destinations of paths at or below a non-root item lie strictly below `dest`. */
  lemma DestSetBelow(item: Path, dest: Path, srcs: set<Path>, q: Path)
    requires item != [] && forall s | s in srcs :: item <= s
    requires q in DestSet(item, dest, srcs)
    ensures dest < q
  {
    var s :| s in srcs && Parent(item) <= s && q == DestFor(item, dest, s);
    DestBelow(item, dest, s);
  }

  lemma DestSetAdd(item: Path, dest: Path, srcs: set<Path>, x: Path)
    requires Parent(item) <= x
    ensures DestSet(item, dest, srcs + {x}) == DestSet(item, dest, srcs) + {DestFor(item, dest, x)}
  {
  }

  /** A walked directory never lands where a copied file does. */
  lemma NotCopiedFile(fs: FS, item: Path, dest: Path, files: set<Path>, r: Path)
    requires TreeCopy(fs, item, dest) && files <= FilesUnder(fs, item) && r in Walk(fs, item)
    ensures DestFor(item, dest, r) !in DestSet(item, dest, files)
  {
    WalkedRoot(fs, item, dest, r);
    if DestFor(item, dest, r) in DestSet(item, dest, files) {
      var s :| s in files && Parent(item) <= s && DestFor(item, dest, s) == DestFor(item, dest, r);
      DestForInjective(item, dest, s, r);
      assert false;
    }
  }

  /** A copied file never lands where a walked directory does. */
  lemma NotCreatedDir(fs: FS, item: Path, dest: Path, dirs: set<Path>, f: Path)
    requires TreeCopy(fs, item, dest) && dirs <= Walk(fs, item) && f in FilesUnder(fs, item)
    ensures DestFor(item, dest, f) !in DestSet(item, dest, dirs)
  {
    if DestFor(item, dest, f) in DestSet(item, dest, dirs) {
      var r :| r in dirs && Parent(item) <= r && DestFor(item, dest, r) == DestFor(item, dest, f);
      DestForInjective(item, dest, r, f);
      WalkedRoot(fs, item, dest, r);
      assert false;
    }
  }

  /** The walk changes nothing outside `dest`. */
  lemma OverlayOutside(fs: FS, item: Path, dest: Path, dirs: set<Path>, files: set<Path>, q: Path)
    requires TreeCopy(fs, item, dest) && dirs <= Walk(fs, item) && files <= FilesUnder(fs, item)
    requires !(dest < q)
    ensures q in Overlay(fs, item, dest, dirs, files) <==> q in fs
    ensures q in fs ==> Overlay(fs, item, dest, dirs, files)[q] == fs[q]
  {
    if q in DestSet(item, dest, dirs) {
      DestSetBelow(item, dest, dirs, q);
    }
    if q in DestSet(item, dest, files) {
      DestSetBelow(item, dest, files, q);
    }
  }

  /** The destination of a root the walk has reached is a directory. */
  lemma OverlayDirAt(fs: FS, item: Path, dest: Path, dirs: set<Path>, files: set<Path>, r: Path)
    requires TreeCopy(fs, item, dest) && dirs <= Walk(fs, item) && files <= FilesUnder(fs, item)
    requires r in dirs
    ensures Parent(item) <= r && IsDir(Overlay(fs, item, dest, dirs, files), DestFor(item, dest, r))
  {
    WalkedRoot(fs, item, dest, r);
    NotCopiedFile(fs, item, dest, files, r);
  }

  lemma OverlayEmpty(fs: FS, item: Path, dest: Path)
    ensures Overlay(fs, item, dest, {}, {}) == fs
  {
    assert DestSet(item, dest, {}) == {};
  }

  /** After every root, the files of the roots are the files below the item. */
  lemma FilesOfWalk(fs: FS, item: Path, dest: Path)
    requires TreeCopy(fs, item, dest)
    ensures FilesOfRoots(fs, Walk(fs, item)) == FilesUnder(fs, item)
  {
    forall f | f in FilesUnder(fs, item)
      ensures f in FilesOfRoots(fs, Walk(fs, item))
    {
      FileParentWalked(fs, item, f);
    }
    forall f | f in FilesOfRoots(fs, Walk(fs, item))
      ensures f in FilesUnder(fs, item)
    {
      FilesInWalked(fs, item, Parent(f));
      assert f in FilesIn(fs, Parent(f));
    }
  }

  lemma FilesOfRootsAdd(fs: FS, done: set<Path>, r: Path)
    ensures FilesOfRoots(fs, done + {r}) == FilesOfRoots(fs, done) + FilesIn(fs, r)
  {
  }

  /** A source at or below an item disjoint from `dest` is not at or below `dest / item.name`. */
  lemma SourceOutside(item: Path, dest: Path, s: Path)
    requires Disjoint(item, dest) && item <= s
    ensures item != [] && Parent(item) <= item && !(DestFor(item, dest, item) <= s)
  {
    assert item != [];
    ItemBase(item, dest);
    DisjointRegion(item, dest, dest + [BaseName(item)], s);
  }

  /** Where a reached root's directory goes, its parent is already a directory and no file is
      in the way. */
  lemma MkdirRoom(fs: FS, item: Path, dest: Path, dirs: set<Path>, files: set<Path>, root: Path)
    requires TreeCopy(fs, item, dest) && dirs <= Walk(fs, item) && files <= FilesUnder(fs, item)
    requires root in Walk(fs, item) && (root == item || Parent(root) in dirs)
    ensures Parent(item) <= root
    ensures DestFor(item, dest, root) != []
    ensures IsDir(Overlay(fs, item, dest, dirs, files), Parent(DestFor(item, dest, root)))
    ensures !IsFile(Overlay(fs, item, dest, dirs, files), DestFor(item, dest, root))
  {
    WalkedRoot(fs, item, dest, root);
    var p := DestFor(item, dest, root);
    DestBelow(item, dest, root);
    if root == item {
      assert Parent(item) == item[..|item| - 1];
      assert root[|Parent(item)|..] == [BaseName(item)];
      assert Parent(p) == dest;
      OverlayOutside(fs, item, dest, dirs, files, dest);
    } else {
      DestForParent(item, dest, root);
      OverlayDirAt(fs, item, dest, dirs, files, Parent(root));
    }
    NotCopiedFile(fs, item, dest, files, root);
  }

  /** Creating the destination of one more root adds that directory, unless it exists. */
  lemma OverlayAddDir(fs: FS, item: Path, dest: Path, dirs: set<Path>, files: set<Path>, r: Path)
    requires Parent(item) <= r && DestFor(item, dest, r) !in DestSet(item, dest, files)
    ensures var cur := Overlay(fs, item, dest, dirs, files); var p := DestFor(item, dest, r);
      Overlay(fs, item, dest, dirs + {r}, files) == if p in cur then cur else cur[p := Dir]
  {
    DestSetAdd(item, dest, dirs, r);
  }

  /** `dest_root.mkdir(parents=True, exist_ok=True)` in the walk (line 127): the parent of the
      root's destination already exists, so the call creates just that one directory, and no
      file is in its way. */
  lemma MkdirStep(fs: FS, item: Path, dest: Path, dirs: set<Path>, files: set<Path>, root: Path)
    requires TreeCopy(fs, item, dest) && dirs <= Walk(fs, item) && files <= FilesUnder(fs, item)
    requires root in Walk(fs, item) && (root == item || Parent(root) in dirs)
    requires WF(Overlay(fs, item, dest, dirs, files))
    ensures Parent(item) <= root
    ensures NoFileOnPath(Overlay(fs, item, dest, dirs, files), DestFor(item, dest, root))
    ensures MkdirAll(Overlay(fs, item, dest, dirs, files), DestFor(item, dest, root))
         == Overlay(fs, item, dest, dirs + {root}, files)
  {
    MkdirRoom(fs, item, dest, dirs, files, root);
    MkdirOne(Overlay(fs, item, dest, dirs, files), DestFor(item, dest, root));
    NotCopiedFile(fs, item, dest, files, root);
    OverlayAddDir(fs, item, dest, dirs, files, root);
  }

  /** `dest_root / f` is where the file `root / f` lands. */
  lemma ChildDest(item: Path, dest: Path, root: Path, f: Path)
    requires Parent(item) <= root && f != [] && Parent(f) == root
    ensures Parent(item) <= f
    ensures DestFor(item, dest, root) + [BaseName(f)] == DestFor(item, dest, f)
    ensures Parent(DestFor(item, dest, f)) == DestFor(item, dest, root)
  {
    assert f == root + [BaseName(f)];
    assert f[|Parent(item)|..] == root[|Parent(item)|..] + [BaseName(f)];
  }

  /** Where a file of a reached root goes: `dest_root / f`, inside a directory, not onto one,
      and its source is as it was. */
  lemma CopyRoom(fs: FS, item: Path, dest: Path, dirs: set<Path>, files: set<Path>, root: Path, f: Path)
    requires TreeCopy(fs, item, dest) && dirs <= Walk(fs, item) && files <= FilesUnder(fs, item)
    requires root in dirs && f in FilesIn(fs, root)
    ensures f in FilesUnder(fs, item) && Parent(item) <= root && Parent(item) <= f
    ensures DestFor(item, dest, root) + [BaseName(f)] == DestFor(item, dest, f)
    ensures f in Overlay(fs, item, dest, dirs, files) && Overlay(fs, item, dest, dirs, files)[f] == fs[f]
    ensures DestFor(item, dest, f) != [] && DestFor(item, dest, f) != f
    ensures IsDir(Overlay(fs, item, dest, dirs, files), Parent(DestFor(item, dest, f)))
    ensures !IsDir(Overlay(fs, item, dest, dirs, files), DestFor(item, dest, f))
  {
    WalkedRoot(fs, item, dest, root);
    FilesInWalked(fs, item, root);
    ChildDest(item, dest, root, f);
    DestBelow(item, dest, f);
    SourceOutside(item, dest, f);
    DestUnderBase(item, dest, f);
    OverlayUnchanged(fs, item, dest, dirs, files);
    OverlayDirAt(fs, item, dest, dirs, files, root);
    NotCreatedDir(fs, item, dest, dirs, f);
  }

  /** Copying one more file adds it at its destination with its source's size. */
  lemma OverlayAddFile(fs: FS, item: Path, dest: Path, dirs: set<Path>, files: set<Path>, f: Path)
    requires Parent(item) <= f
    ensures Overlay(fs, item, dest, dirs, files)[DestFor(item, dest, f) := File(SizeOf(fs, f))]
         == Overlay(fs, item, dest, dirs, files + {f})
  {
    SourceOfDest(item, dest, f);
    DestSetAdd(item, dest, files, f);
  }

  /** `shutil.copy2(src_file, dst_file)` in the walk (line 131) adds that one file, with the
      size of its source. */
  lemma CopyStep(fs: FS, item: Path, dest: Path, dirs: set<Path>, files: set<Path>, root: Path, f: Path)
    requires TreeCopy(fs, item, dest) && dirs <= Walk(fs, item) && files <= FilesUnder(fs, item)
    requires root in dirs && f in FilesIn(fs, root)
    ensures Parent(item) <= f
    ensures Overlay(fs, item, dest, dirs, files)[DestFor(item, dest, f) := File(fs[f].size)]
         == Overlay(fs, item, dest, dirs, files + {f})
  {
    WalkedRoot(fs, item, dest, root);
    assert Parent(item) <= f;
    OverlayAddFile(fs, item, dest, dirs, files, f);
  }

  /** The pairs of a walk grow by one with each copied file. */
  lemma PairSetAdd(item: Path, dest: Path, srcs: set<Path>, x: Path)
    requires x !in srcs && Parent(item) <= x
    ensures multiset(PairSet(item, dest, srcs + {x}))
         == multiset(PairSet(item, dest, srcs)) + multiset{(x, DestFor(item, dest, x))}
  {
    var e := (x, DestFor(item, dest, x));
    assert PairSet(item, dest, srcs + {x}) == PairSet(item, dest, srcs) + {e};
    assert e !in PairSet(item, dest, srcs);
  }

  /** The pairs of two disjoint groups of sources are the pairs of each group. */
  lemma PairSetUnion(item: Path, dest: Path, a: set<Path>, b: set<Path>)
    requires a !! b
    ensures multiset(PairSet(item, dest, a + b))
         == multiset(PairSet(item, dest, a)) + multiset(PairSet(item, dest, b))
  {
    var pa, pb := PairSet(item, dest, a), PairSet(item, dest, b);
    assert PairSet(item, dest, a + b) == pa + pb;
    assert pa !! pb;
  }

  /** A directory stays a directory during the walk: no file is copied onto one. */
  lemma OverlayKeepsDir(fs: FS, item: Path, dest: Path, dirs: set<Path>, files: set<Path>, p: Path)
    requires TreeCopy(fs, item, dest) && files <= FilesUnder(fs, item) && IsDir(fs, p)
    ensures IsDir(Overlay(fs, item, dest, dirs, files), p)
  {
  }

  /** Every entry after the walk of a directory item hangs below a directory. */
  lemma OverlayEntryWF(fs: FS, item: Path, dest: Path, q: Path)
    requires TreeCopy(fs, item, dest)
    requires q in Overlay(fs, item, dest, Walk(fs, item), FilesUnder(fs, item))
    ensures q != [] && IsDir(Overlay(fs, item, dest, Walk(fs, item), FilesUnder(fs, item)), Parent(q))
  {
    var w, fu := Walk(fs, item), FilesUnder(fs, item);
    if q in fs {
      assert IsDir(fs, Parent(q));
      OverlayKeepsDir(fs, item, dest, w, fu, Parent(q));
    } else if q in DestSet(item, dest, w) {
      var r :| r in w && Parent(item) <= r && q == DestFor(item, dest, r);
      WalkedRoot(fs, item, dest, r);
      DestBelow(item, dest, r);
      DestForParent(item, dest, r);
      if r == item {
        assert DestFor(item, dest, Parent(r)) == dest;
        OverlayKeepsDir(fs, item, dest, w, fu, dest);
      } else {
        WalkParent(fs, item, dest, r);
        OverlayDirAt(fs, item, dest, w, fu, Parent(r));
      }
    } else {
      var f :| f in fu && Parent(item) <= f && q == DestFor(item, dest, f);
      DestBelow(item, dest, f);
      FileParentWalked(fs, item, f);
      DestForParent(item, dest, f);
      OverlayDirAt(fs, item, dest, w, fu, Parent(f));
    }
  }

  /** Copying one item into a tree leaves a tree. */
  lemma ItemCopiedWF(fs: FS, item: Path, dest: Path)
    requires ItemCopyable(fs, item, dest)
    ensures WF(ItemCopied(fs, item, dest))
  {
    if IsFile(fs, item) {
      assert item != [];
      DestForParent(item, dest, item);
      AddFileWF(fs, DestFor(item, dest, item), fs[item].size);
    } else if IsDir(fs, item) {
      forall q | q in ItemCopied(fs, item, dest)
        ensures q != [] && IsDir(ItemCopied(fs, item, dest), Parent(q))
      {
        OverlayEntryWF(fs, item, dest, q);
      }
    }
  }

  /** A regular file stays a regular file when an item is copied. */
  lemma ItemKeepsFile(fs: FS, item: Path, dest: Path, q: Path)
    requires IsFile(fs, q)
    ensures IsFile(ItemCopied(fs, item, dest), q)
  {
  }

  /** A directory stays a directory when an item is copied into a state that allows it. */
  lemma ItemKeepsDir(fs: FS, item: Path, dest: Path, q: Path)
    requires ItemCopyable(fs, item, dest) && IsDir(fs, q)
    ensures IsDir(ItemCopied(fs, item, dest), q)
  {
    if !IsFile(fs, item) && IsDir(fs, item) {
      OverlayKeepsDir(fs, item, dest, Walk(fs, item), FilesUnder(fs, item), q);
    }
  }

  // ---------------------------------------------------------------- the whole selection

  /** `copy_with_progress(items, dest)` on the filesystem: the items copied in order, each
      in the state the previous ones left. */
  function CopyResult(fs: FS, items: seq<Path>, dest: Path): FS
    decreases |items|
  {
    if items == [] then fs else CopyResult(ItemCopied(fs, items[0], dest), items[1..], dest)
  }

  /** Every item's copy finds what it needs in the state it starts in, and no item's copy
      writes at or above a later item (`SiblingsApart`: for items of one directory this follows
      from each item's own condition). */
  ghost predicate Copyable(fs: FS, items: seq<Path>, dest: Path)
    decreases |items|
  {
    items == [] ||
    (ItemCopyable(fs, items[0], dest) &&
     (forall j | 1 <= j < |items| :: LandsApart(items[0], dest, items[j])) &&
     Copyable(ItemCopied(fs, items[0], dest), items[1..], dest))
  }

  /** The first item's copy writes at or below a child of `dest` that is not at or above any
      later item. */
  lemma FirstApart(fs: FS, items: seq<Path>, dest: Path, k: nat)
    requires Copyable(fs, items, dest) && 0 < k < |items|
    ensures items[0] != [] && Parent(items[0]) <= items[0]
    ensures var base := DestFor(items[0], dest, items[0]);
      base != [] && Parent(base) == dest && !(base <= items[k])
  {
    assert LandsApart(items[0], dest, items[k]);
    assert items[0] != [];
    ItemBase(items[0], dest);
  }

  /** All `(source, destination)` pairs of a selection, one per file copy. */
  ghost function Plan(fs: FS, items: seq<Path>, dest: Path): multiset<(Path, Path)>
    decreases |items|
  {
    if items == [] then multiset{}
    else multiset(PairsOf(fs, items[0], dest)) + Plan(ItemCopied(fs, items[0], dest), items[1..], dest)
  }

  /** The bytes the progress bar advances by, item after item. */
  ghost function Advanced(fs: FS, items: seq<Path>, dest: Path): nat
    decreases |items|
  {
    if items == [] then 0 else ItemSize(fs, items[0]) + Advanced(ItemCopied(fs, items[0], dest), items[1..], dest)
  }

  // ---------------------------------------------------------------- what a copy leaves alone

  /** `fs'` agrees with `fs` everywhere outside the subtree at `base`. */
  ghost predicate Unchanged(fs: FS, fs': FS, base: Path)
  {
    forall q | !(base <= q) :: (q in fs <==> q in fs') && (q in fs ==> q in fs' && fs'[q] == fs[q])
  }

  /** What lands from below an item lands below `dest / item.name`. */
  lemma DestUnderBase(item: Path, dest: Path, s: Path)
    requires item != [] && item <= s
    ensures Parent(item) <= item && Parent(item) <= s
    ensures DestFor(item, dest, item) <= DestFor(item, dest, s)
  {
    assert Parent(item) == item[..|item| - 1];
    assert s[..|item|] == item;
    assert DestFor(item, dest, s)[..|DestFor(item, dest, item)|] == DestFor(item, dest, item);
  }

  /** The walk of a directory item touches nothing outside `dest / item.name`. */
  lemma OverlayUnchanged(fs: FS, item: Path, dest: Path, dirs: set<Path>, files: set<Path>)
    requires item != [] && forall s | s in dirs + files :: item <= s
    ensures Parent(item) <= item
    ensures Unchanged(fs, Overlay(fs, item, dest, dirs, files), DestFor(item, dest, item))
  {
    var base := DestFor(item, dest, item);
    DestUnderBase(item, dest, item);
    forall q | q in DestSet(item, dest, dirs) + DestSet(item, dest, files)
      ensures base <= q
    {
      var s :| (s in dirs || s in files) && Parent(item) <= s && q == DestFor(item, dest, s);
      assert s in dirs + files;
      DestUnderBase(item, dest, s);
    }
  }

  /** Copying an item touches nothing outside `dest / item.name`. */
  lemma ItemCopiedUnchanged(fs: FS, item: Path, dest: Path)
    requires ItemCopyable(fs, item, dest)
    ensures item != [] && Parent(item) <= item
    ensures Unchanged(fs, ItemCopied(fs, item, dest), DestFor(item, dest, item))
  {
    assert Parent(item) == item[..|item| - 1];
    if !IsFile(fs, item) && IsDir(fs, item) {
      OverlayUnchanged(fs, item, dest, Walk(fs, item), FilesUnder(fs, item));
    }
  }

  /** A file item is copied by one `copy2` to `dest / item.name` (line 118), which is where it
      lands, and that is its one `(source, destination)` pair. */
  lemma FileItemCopy(fs: FS, item: Path, dest: Path)
    requires ItemCopyable(fs, item, dest) && IsFile(fs, item)
    ensures Parent(item) <= item
    ensures var dst := dest + [BaseName(item)];
      dst == DestFor(item, dest, item) && dst != [] && IsDir(fs, Parent(dst)) &&
      Landing(fs, item, dst) == dst && !IsDir(fs, dst) && dst != item &&
      Copy2(fs, item, dst) == ItemCopied(fs, item, dest) && PairsOf(fs, item, dest) == {(item, dst)}
  {
    SourceOutside(item, dest, item);
    ItemBase(item, dest);
  }

  /** Where an item's source lands, its copy leaves a file of the source's size. */
  lemma ItemLands(fs: FS, item: Path, dest: Path, f: Path)
    requires ItemCopyable(fs, item, dest) && f in Sources(fs, item)
    ensures Parent(item) <= f
    ensures DestFor(item, dest, f) in ItemCopied(fs, item, dest)
    ensures ItemCopied(fs, item, dest)[DestFor(item, dest, f)] == File(SizeOf(fs, f))
  {
    assert Parent(item) == item[..|item| - 1];
    if !IsFile(fs, item) {
      assert item <= f;
      var q := DestFor(item, dest, f);
      assert q in DestSet(item, dest, FilesUnder(fs, item));
      SourceOfDest(item, dest, f);
    }
  }

  /** Every directory the walk of a directory item yields is re-created at its place below `dest`. */
  lemma ItemDirsLand(fs: FS, item: Path, dest: Path, r: Path)
    requires TreeCopy(fs, item, dest) && r in Walk(fs, item)
    ensures Parent(item) <= r && IsDir(ItemCopied(fs, item, dest), DestFor(item, dest, r))
  {
    OverlayDirAt(fs, item, dest, Walk(fs, item), FilesUnder(fs, item), r);
  }

  /** An item disjoint from `dest` has the same sources, of the same sizes, after a change at or
      below a child of `dest` that is not at or above the item. */
  lemma SameSources(fs: FS, fs': FS, y: Path, dest: Path, base: Path)
    requires Unchanged(fs, fs', base) && Disjoint(y, dest)
    requires base != [] && Parent(base) == dest && !(base <= y)
    ensures Sources(fs', y) == Sources(fs, y)
    ensures forall s | s in Sources(fs, y) :: SizeOf(fs', s) == SizeOf(fs, s)
    ensures ItemSize(fs', y) == ItemSize(fs, y)
  {
    DisjointRegion(y, dest, base, y);
    forall p | y < p
      ensures (p in fs <==> p in fs') && (p in fs ==> fs'[p] == fs[p])
    {
      DisjointRegion(y, dest, base, p);
    }
    assert FilesUnder(fs', y) == FilesUnder(fs, y);
    forall s | s in Sources(fs, y)
      ensures SizeOf(fs', s) == SizeOf(fs, s)
    {
      DisjointRegion(y, dest, base, s);
    }
    SizeSumAgree(fs, fs', Sources(fs, y));
  }

  /** The places the rest of a selection writes to. */
  ghost predicate Untouched(items: seq<Path>, dest: Path, q: Path)
  {
    forall j | 0 <= j < |items| :: Parent(items[j]) <= items[j] && !(DestFor(items[j], dest, items[j]) <= q)
  }

  /** A path no item of the selection writes below keeps its entry. */
  lemma {:induction false} CopyResultKeeps(fs: FS, items: seq<Path>, dest: Path, q: Path)
    requires Copyable(fs, items, dest) && Untouched(items, dest, q)
    ensures q in CopyResult(fs, items, dest) <==> q in fs
    ensures q in fs ==> CopyResult(fs, items, dest)[q] == fs[q]
    decreases |items|
  {
    if items != [] {
      ItemCopiedUnchanged(fs, items[0], dest);
      assert Untouched(items[1..], dest, q) by {
        forall j | 0 <= j < |items[1..]|
          ensures Parent(items[1..][j]) <= items[1..][j] && !(DestFor(items[1..][j], dest, items[1..][j]) <= q)
        {
          assert items[1..][j] == items[j + 1];
        }
      }
      CopyResultKeeps(ItemCopied(fs, items[0], dest), items[1..], dest, q);
    }
  }

  /** Every item of a copyable selection is disjoint from `dest`. */
  lemma {:induction false} CopyableDisjoint(fs: FS, items: seq<Path>, dest: Path, k: nat)
    requires Copyable(fs, items, dest) && k < |items|
    ensures Disjoint(items[k], dest) && items[k] != []
    decreases k
  {
    if k > 0 {
      CopyableDisjoint(ItemCopied(fs, items[0], dest), items[1..], dest, k - 1);
      assert items[1..][k - 1] == items[k];
    }
  }

  /** `copy_with_progress` changes nothing outside the subtree below `dest`, not `dest` itself,
      and no directory above it. */
  lemma CopyResultOutside(fs: FS, items: seq<Path>, dest: Path, q: Path)
    requires Copyable(fs, items, dest) && !(dest < q)
    ensures q in CopyResult(fs, items, dest) <==> q in fs
    ensures q in fs ==> CopyResult(fs, items, dest)[q] == fs[q]
  {
    forall j | 0 <= j < |items|
      ensures Parent(items[j]) <= items[j] && !(DestFor(items[j], dest, items[j]) <= q)
    {
      CopyableDisjoint(fs, items, dest, j);
      DestBelow(items[j], dest, items[j]);
    }
    CopyResultKeeps(fs, items, dest, q);
  }

  /** The first item's copy leaves the sizes of all later items as they were. */
  lemma RestSizesSame(fs: FS, items: seq<Path>, dest: Path)
    requires Copyable(fs, items, dest) && items != []
    ensures forall j | 0 <= j < |items[1..]| ::
      ItemSize(ItemCopied(fs, items[0], dest), items[1..][j]) == ItemSize(fs, items[1..][j])
  {
    var fs1 := ItemCopied(fs, items[0], dest);
    var rest := items[1..];
    ItemCopiedUnchanged(fs, items[0], dest);
    CopyableDisjoint(fs, items, dest, 0);
    DestBelow(items[0], dest, items[0]);
    forall j | 0 <= j < |rest|
      ensures ItemSize(fs1, rest[j]) == ItemSize(fs, rest[j])
    {
      CopyableDisjoint(fs, items, dest, j + 1);
      assert rest[j] == items[j + 1];
      FirstApart(fs, items, dest, j + 1);
      SameSources(fs, fs1, rest[j], dest, DestFor(items[0], dest, items[0]));
    }
  }

  /** The progress bar advances by exactly the total `get_total_size` announced: every later
      item's sources are untouched by the earlier copies. */
  lemma {:induction false} AdvancedIsTotal(fs: FS, items: seq<Path>, dest: Path)
    requires Copyable(fs, items, dest)
    ensures Advanced(fs, items, dest) == TotalSize(fs, items)
    decreases |items|
  {
    if items != [] {
      var fs1 := ItemCopied(fs, items[0], dest);
      var rest := items[1..];
      AdvancedIsTotal(fs1, rest, dest);
      RestSizesSame(fs, items, dest);
      TotalSizeSame(fs, fs1, rest);
      TotalSizeFirst(fs, items);
    }
  }

  /** Two filesystems that agree on each item's size agree on the total. */
  lemma {:induction false} TotalSizeSame(fs: FS, fs': FS, items: seq<Path>)
    requires forall j | 0 <= j < |items| :: ItemSize(fs', items[j]) == ItemSize(fs, items[j])
    ensures TotalSize(fs', items) == TotalSize(fs, items)
    decreases |items|
  {
    if items != [] {
      TotalSizeSame(fs, fs', items[..|items| - 1]);
    }
  }

  /** Where a selected file lands, the copy leaves a file of its size, as long as no later item
      has the same name (a later one would land on the same place). */
  lemma {:induction false} CopyLands(fs: FS, items: seq<Path>, dest: Path, k: nat, f: Path)
    requires Copyable(fs, items, dest) && k < |items| && f in Sources(fs, items[k])
    requires forall j | k < j < |items| :: BaseName(items[j]) != BaseName(items[k])
    ensures Parent(items[k]) <= f
    ensures DestFor(items[k], dest, f) in CopyResult(fs, items, dest)
    ensures CopyResult(fs, items, dest)[DestFor(items[k], dest, f)] == File(SizeOf(fs, f))
    decreases k
  {
    if k == 0 {
      CopyLandsFirst(fs, items, dest, f);
    } else {
      CopyLandsShift(fs, items, dest, k, f);
      CopyLands(ItemCopied(fs, items[0], dest), items[1..], dest, k - 1, f);
    }
  }

  /** `CopyLands` for the first item: no later item writes over what it copied. */
  lemma CopyLandsFirst(fs: FS, items: seq<Path>, dest: Path, f: Path)
    requires Copyable(fs, items, dest) && items != [] && f in Sources(fs, items[0])
    requires forall j | 0 < j < |items| :: BaseName(items[j]) != BaseName(items[0])
    ensures Parent(items[0]) <= f
    ensures DestFor(items[0], dest, f) in CopyResult(fs, items, dest)
    ensures CopyResult(fs, items, dest)[DestFor(items[0], dest, f)] == File(SizeOf(fs, f))
  {
    var fs1 := ItemCopied(fs, items[0], dest);
    var rest := items[1..];
    ItemLands(fs, items[0], dest, f);
    CopyableDisjoint(fs, items, dest, 0);
    var q := DestFor(items[0], dest, f);
    forall j | 0 <= j < |rest|
      ensures Parent(rest[j]) <= rest[j] && !(DestFor(rest[j], dest, rest[j]) <= q)
    {
      assert rest[j] == items[j + 1];
      CopyableDisjoint(fs, items, dest, j + 1);
      NamesApart(items[0], rest[j], dest, f);
    }
    CopyResultKeeps(fs1, rest, dest, q);
  }

  /** `CopyLands` for a later item holds once the first item is copied: the later item's source
      keeps its size, and the names after it still differ from its own. */
  lemma CopyLandsShift(fs: FS, items: seq<Path>, dest: Path, k: nat, f: Path)
    requires Copyable(fs, items, dest) && 0 < k < |items| && f in Sources(fs, items[k])
    requires forall j | k < j < |items| :: BaseName(items[j]) != BaseName(items[k])
    ensures var fs1, rest := ItemCopied(fs, items[0], dest), items[1..];
      Copyable(fs1, rest, dest) && rest[k - 1] == items[k] && f in Sources(fs1, rest[k - 1]) &&
      SizeOf(fs1, f) == SizeOf(fs, f) &&
      (forall j | k - 1 < j < |rest| :: BaseName(rest[j]) != BaseName(rest[k - 1]))
  {
    var fs1 := ItemCopied(fs, items[0], dest);
    var rest := items[1..];
    ItemCopiedUnchanged(fs, items[0], dest);
    assert rest[k - 1] == items[k];
    CopyableDisjoint(fs, items, dest, k);
    FirstApart(fs, items, dest, k);
    SameSources(fs, fs1, items[k], dest, DestFor(items[0], dest, items[0]));
    forall j | k - 1 < j < |rest|
      ensures BaseName(rest[j]) != BaseName(rest[k - 1])
    {
      assert rest[j] == items[j + 1];
    }
  }

  /** What lands from an item is below `dest / item.name`, so an item of another name never
      writes over it. */
  lemma NamesApart(x: Path, y: Path, dest: Path, f: Path)
    requires x != [] && y != [] && x <= f && BaseName(x) != BaseName(y)
    ensures Parent(x) <= f && Parent(y) <= y
    ensures !(DestFor(y, dest, y) <= DestFor(x, dest, f))
  {
    assert Parent(x) == x[..|x| - 1] && Parent(y) == y[..|y| - 1];
    var q := DestFor(x, dest, f);
    assert q[|dest|] == BaseName(x);
    assert DestFor(y, dest, y)[|dest|] == BaseName(y);
  }

  /** Every destination in the plan of a selection lies strictly below `dest`. */
  lemma {:induction false} PlanBelow(fs: FS, items: seq<Path>, dest: Path)
    requires Copyable(fs, items, dest)
    ensures forall x | x in Plan(fs, items, dest) :: dest < x.1
    decreases |items|
  {
    if items != [] {
      var item := items[0];
      CopyableDisjoint(fs, items, dest, 0);
      PlanBelow(ItemCopied(fs, item, dest), items[1..], dest);
      forall x | x in PairsOf(fs, item, dest)
        ensures dest < x.1
      {
        var s :| s in Sources(fs, item) && Parent(item) <= s && x == (s, DestFor(item, dest, s));
        DestBelow(item, dest, s);
      }
    }
  }

  /** Copying a selection into a tree leaves a tree. */
  lemma {:induction false} CopyResultWF(fs: FS, items: seq<Path>, dest: Path)
    requires WF(fs) && Copyable(fs, items, dest)
    ensures WF(CopyResult(fs, items, dest))
    decreases |items|
  {
    if items != [] {
      ItemCopiedWF(fs, items[0], dest);
      CopyResultWF(ItemCopied(fs, items[0], dest), items[1..], dest);
    }
  }

  /** Regular files stay regular files, and directories stay directories, through the whole copy. */
  lemma {:induction false} CopyResultKeepsKinds(fs: FS, items: seq<Path>, dest: Path, q: Path)
    requires Copyable(fs, items, dest)
    ensures IsFile(fs, q) ==> IsFile(CopyResult(fs, items, dest), q)
    ensures IsDir(fs, q) ==> IsDir(CopyResult(fs, items, dest), q)
    decreases |items|
  {
    if items != [] {
      if IsFile(fs, q) {
        ItemKeepsFile(fs, items[0], dest, q);
      }
      if IsDir(fs, q) {
        ItemKeepsDir(fs, items[0], dest, q);
      }
      CopyResultKeepsKinds(ItemCopied(fs, items[0], dest), items[1..], dest, q);
    }
  }

  /** Every destination in the plan of a selection is a regular file once the copy is done. */
  lemma {:induction false} PlanDestsAreFiles(fs: FS, items: seq<Path>, dest: Path, x: (Path, Path))
    requires Copyable(fs, items, dest) && x in Plan(fs, items, dest)
    ensures IsFile(CopyResult(fs, items, dest), x.1)
    decreases |items|
  {
    var fs1 := ItemCopied(fs, items[0], dest);
    if x in PairsOf(fs, items[0], dest) {
      var s :| s in Sources(fs, items[0]) && Parent(items[0]) <= s && x == (s, DestFor(items[0], dest, s));
      ItemLands(fs, items[0], dest, s);
      CopyResultKeepsKinds(fs1, items[1..], dest, x.1);
    } else {
      PlanDestsAreFiles(fs1, items[1..], dest, x);
    }
  }

  /** An item disjoint from `dest` keeps its kind and its walk after a change at or below a child
      of `dest` that is not at or above the item. */
  lemma SameWalk(fs: FS, fs': FS, y: Path, dest: Path, base: Path)
    requires Unchanged(fs, fs', base) && Disjoint(y, dest)
    requires base != [] && Parent(base) == dest && !(base <= y)
    ensures IsFile(fs', y) == IsFile(fs, y) && IsDir(fs', y) == IsDir(fs, y)
    ensures Walk(fs', y) == Walk(fs, y)
  {
    DisjointRegion(y, dest, base, y);
    forall p | y < p
      ensures (p in fs <==> p in fs') && (p in fs ==> fs'[p] == fs[p])
    {
      DisjointRegion(y, dest, base, p);
    }
    assert DirsUnder(fs', y) == DirsUnder(fs, y);
  }

  /** Every directory the walk of a selected directory yields exists at its place below `dest`
      once the whole selection is copied. */
  lemma {:induction false} CopyDirsLand(fs: FS, items: seq<Path>, dest: Path, k: nat, r: Path)
    requires Copyable(fs, items, dest) && k < |items|
    requires IsDir(fs, items[k]) && !IsFile(fs, items[k]) && r in Walk(fs, items[k])
    ensures Parent(items[k]) <= r
    ensures IsDir(CopyResult(fs, items, dest), DestFor(items[k], dest, r))
    decreases k
  {
    var fs1 := ItemCopied(fs, items[0], dest);
    var rest := items[1..];
    if k == 0 {
      ItemDirsLand(fs, items[0], dest, r);
      CopyResultKeepsKinds(fs1, rest, dest, DestFor(items[0], dest, r));
    } else {
      ItemCopiedUnchanged(fs, items[0], dest);
      CopyableDisjoint(fs, items, dest, 0);
      CopyableDisjoint(fs, items, dest, k);
      DestBelow(items[0], dest, items[0]);
      assert rest[k - 1] == items[k];
      FirstApart(fs, items, dest, k);
      SameWalk(fs, fs1, items[k], dest, DestFor(items[0], dest, items[0]));
      CopyDirsLand(fs1, rest, dest, k - 1, r);
    }
  }

  /** With `dest` strictly above the item's parent, the item and its copy are disjoint exactly
      when the item's name differs from the step of its path just below `dest`. */
  lemma DestAboveDisjoint(item: Path, dest: Path)
    requires dest < Parent(item)
    ensures |dest| < |item|
    ensures Disjoint(item, dest) <==> item[|dest|] != BaseName(item)
  {
    assert Parent(item) == item[..|item| - 1];
    assert dest == item[..|dest|];
    if item[|dest|] == BaseName(item) {
      assert (dest + [BaseName(item)]) == item[..|dest| + 1];
    }
  }

  /** When the item's name does repeat that step, the copy lands on the item's own family: for
      the item `h/x/x` and `dest` `h`, the item's file `a` would be copied next to the item and
      its file `x` onto the item itself. `Disjoint` rules the case out. */
  lemma DestAboveOverlaps()
    ensures DestFor(["h", "x", "x"], ["h"], ["h", "x", "x", "a"]) == Parent(["h", "x", "x"]) + ["a"]
    ensures DestFor(["h", "x", "x"], ["h"], ["h", "x", "x", "x"]) == ["h", "x", "x"]
    ensures !Disjoint(["h", "x", "x"], ["h"])
  {
    assert Parent(["h", "x", "x"]) == ["h", "x"];
    assert ["h"] + [BaseName(["h", "x", "x"])] == ["h", "x"];
  }

  /** With `dest` one level up (the user types `..` in `a/b`), the file `a/b/c` is copied to
      `a/c`, and nothing overlaps. */
  lemma UpOneLevel()
    ensures var fs := map[["a"] := Dir, ["a", "b"] := Dir, ["a", "b", "c"] := File(3)];
      Copyable(fs, [["a", "b", "c"]], ["a"]) &&
      CopyResult(fs, [["a", "b", "c"]], ["a"]) == fs[["a", "c"] := File(3)]
  {
    var fs := map[["a"] := Dir, ["a", "b"] := Dir, ["a", "b", "c"] := File(3)];
    var item, dest := ["a", "b", "c"], ["a"];
    assert Parent(["a", "b"]) == ["a"] && Parent(item) == ["a", "b"];
    assert WF(fs);
    assert dest + [BaseName(item)] == ["a", "c"];
    assert DestFor(item, dest, item) == ["a", "c"];
    assert "b"[0] != "c"[0];
    assert item[..2][1] != ["a", "c"][1];
    assert !(["a", "c"] <= item) && !(item <= dest);
    assert IsFile(fs, item) && ["a", "c"] !in fs;
    assert ItemCopyable(fs, item, dest);
    assert [item][1..] == [];
  }

  /** Of two items in one directory, the copy of the first writes at or above the second only
      if it writes at or above the first, which `Disjoint` rules out: for the items of one listing
      the second condition of `Copyable` follows from the first. */
  lemma SiblingsApart(x: Path, y: Path, dest: Path)
    requires x != [] && y != [] && Parent(x) == Parent(y)
    ensures !LandsApart(x, dest, y) ==> !Disjoint(x, dest)
  {
    var b := dest + [BaseName(x)];
    assert x == Parent(x) + [BaseName(x)] && y == Parent(y) + [BaseName(y)];
    if b <= y && |dest| < |Parent(x)| {
      assert b == y[..|b|] && y[..|b|] == Parent(y)[..|b|] && x[..|b|] == Parent(x)[..|b|];
    }
  }

  /** Copying an item leaves the item and everything below it as they were. */
  lemma ItemCopiedKeepsItem(fs: FS, item: Path, dest: Path, q: Path)
    requires ItemCopyable(fs, item, dest) && item <= q
    ensures q in ItemCopied(fs, item, dest) <==> q in fs
    ensures q in fs ==> ItemCopied(fs, item, dest)[q] == fs[q]
  {
    ItemCopiedUnchanged(fs, item, dest);
    SourceOutside(item, dest, q);
  }
}
