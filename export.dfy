/**
  The exporting session: the filesystem together with the undo file, the log, the last
  progress bar and the notifications sent, and the operations that change them:
  `copy_with_progress` (termuxport.py:110-137), `encrypt_and_copy` (140-153) and
  `undo_last` (156-167).
 */
module Export {
  import opened Wrappers
  import opened PyStr
  import opened Fs
  import opened Sizes
  import opened CopyPlan
  import opened Undo

  /** A line of `termuxport.log`. */
  datatype LogLine = Copied(source: Path) | Encrypted(artifact: Path) | UndoExecuted

  /** The notification texts (the title is always `TermuXport v4.4`). */
  const CopyNotice := "Copy Completed"
  const EncryptNotice := "Encrypted Copy Completed"

  /** The destinations of a sequence of `(source, destination)` copies, in order: the lines
      the copy writes to the undo file. */
  function Dests(t: seq<(Path, Path)>): seq<Path>
  {
    if t == [] then [] else Dests(t[..|t| - 1]) + [t[|t| - 1].1]
  }

  /** The log lines of a sequence of copies, in order. */
  function CopyLines(t: seq<(Path, Path)>): seq<LogLine>
  {
    if t == [] then [] else CopyLines(t[..|t| - 1]) + [Copied(t[|t| - 1].0)]
  }

  /** The undo file lists one destination per copy, in the order of the copies. */
  lemma {:induction false} DestsLength(t: seq<(Path, Path)>)
    ensures |Dests(t)| == |t|
    decreases |t|
  {
    if t != [] {
      DestsLength(t[..|t| - 1]);
    }
  }

  lemma {:induction false} DestsIndex(t: seq<(Path, Path)>, k: nat)
    requires k < |t|
    ensures |Dests(t)| == |t| && Dests(t)[k] == t[k].1
    decreases |t|
  {
    DestsLength(t);
    if k < |t| - 1 {
      DestsIndex(t[..|t| - 1], k);
    } else if |t| > 1 {
      DestsIndex(t[..|t| - 1], 0);
    }
  }

  /** After a copy the undo file lists only paths strictly below `dest`. */
  lemma DestsBelow(fs: FS, items: seq<Path>, dest: Path, trace: seq<(Path, Path)>)
    requires Copyable(fs, items, dest) && multiset(trace) == Plan(fs, items, dest)
    ensures forall k | 0 <= k < |Dests(trace)| :: dest < Dests(trace)[k]
  {
    PlanBelow(fs, items, dest);
    forall k | 0 <= k < |Dests(trace)|
      ensures dest < Dests(trace)[k]
    {
      DestsLength(trace);
      DestsIndex(trace, k);
      assert trace[k] in multiset(trace);
    }
  }

  /** Copying a selection and then undoing it restores everything outside the subtree below
      `dest`: the copy writes only below `dest`, and the undo file lists only such paths. Below
      `dest` the restoring is not complete: a copy over an existing file loses that file, and
      the directories the walk creates are never listed, so they stay (`DirsSurviveUndo`). */
  lemma CopyThenUndo(fs: FS, items: seq<Path>, dest: Path, trace: seq<(Path, Path)>, q: Path)
    requires Copyable(fs, items, dest) && multiset(trace) == Plan(fs, items, dest) && !(dest < q)
    ensures var after := RemoveListed(CopyResult(fs, items, dest), Dests(trace));
      (q in after <==> q in fs) && (q in fs ==> after[q] == fs[q])
  {
    CopyResultOutside(fs, items, dest, q);
    DestsBelow(fs, items, dest, trace);
    RemoveListedOutside(CopyResult(fs, items, dest), Dests(trace), dest, q);
  }

  /** The undo removes only what the copy listed, and that is regular files, so every directory
      there is after the copy is still there after the undo. */
  lemma DirsSurviveUndo(fs: FS, items: seq<Path>, dest: Path, trace: seq<(Path, Path)>, q: Path)
    requires WF(fs) && Copyable(fs, items, dest) && multiset(trace) == Plan(fs, items, dest)
    requires IsDir(CopyResult(fs, items, dest), q)
    ensures IsDir(RemoveListed(CopyResult(fs, items, dest), Dests(trace)), q)
  {
    var c := CopyResult(fs, items, dest);
    var ps := Dests(trace);
    CopyResultWF(fs, items, dest);
    DestsLength(trace);
    forall k | 0 <= k < |ps|
      ensures !Reaches(ps[k], q)
    {
      DestsIndex(trace, k);
      assert trace[k] in multiset(trace);
      PlanDestsAreFiles(fs, items, dest, trace[k]);
      if q != [] {
        FileAbove(c, ps[k], q);
      }
    }
    RemoveListedSpec(c, ps);
  }

  /** Every directory the walk of a selected directory creates below `dest` stays after the undo:
      `mkdir` (line 127) writes nothing to the undo file. */
  lemma WalkedDirsSurviveUndo(fs: FS, items: seq<Path>, dest: Path, trace: seq<(Path, Path)>, k: nat, r: Path)
    requires WF(fs) && Copyable(fs, items, dest) && multiset(trace) == Plan(fs, items, dest)
    requires k < |items| && IsDir(fs, items[k]) && !IsFile(fs, items[k]) && r in Walk(fs, items[k])
    ensures Parent(items[k]) <= r
    ensures IsDir(RemoveListed(CopyResult(fs, items, dest), Dests(trace)), DestFor(items[k], dest, r))
  {
    CopyDirsLand(fs, items, dest, k, r);
    DirsSurviveUndo(fs, items, dest, trace, DestFor(items[k], dest, r));
  }

  /** `copy2` onto an existing directory writes the file inside it, but the undo line is the
      directory: undoing then removes the directory with everything it held before the copy. */
  lemma UndoAfterCopyIntoDir(fs: FS, src: Path, dst: Path)
    requires IsFile(fs, src) && dst != [] && IsDir(fs, dst)
    ensures Landing(fs, src, dst) == dst + [BaseName(src)]
    ensures forall q | q in fs && dst <= q :: q !in RemoveListed(Copy2(fs, src, dst), [dst])
  {
    assert [dst][..0] == [];
  }

  /** The file `o/x` is lost when `a` is copied to the existing directory `o/a` and undone. */
  lemma CopyIntoDirExample()
    ensures var fs := map[["a"] := File(1), ["o"] := Dir, ["o", "a"] := Dir, ["o", "a", "x"] := File(5)];
      WF(fs) && ["o", "a", "x"] in fs && ["o", "a", "x"] !in RemoveListed(Copy2(fs, ["a"], ["o", "a"]), [["o", "a"]])
  {
    var fs := map[["a"] := File(1), ["o"] := Dir, ["o", "a"] := Dir, ["o", "a", "x"] := File(5)];
    assert Parent(["o", "a"]) == ["o"] && Parent(["o", "a", "x"]) == ["o", "a"];
    UndoAfterCopyIntoDir(fs, ["a"], ["o", "a"]);
  }

  /** Listing where `copy2` actually wrote, rather than the `dst` it was given, makes the undo
      restore the filesystem whenever the copy created a new file. */
  lemma UndoLandedRestores(fs: FS, src: Path, dst: Path)
    requires WF(fs) && IsFile(fs, src) && dst != [] && Landing(fs, src, dst) !in fs
    ensures RemoveListed(Copy2(fs, src, dst), [Landing(fs, src, dst)]) == fs
  {
    var l := Landing(fs, src, dst);
    assert [l][..0] == [];
    forall q | q in fs
      ensures !(l <= q)
    {
      MissingHasNoSubtree(fs, l, q);
    }
  }

  /** The name of the encrypted archive, `export_<seconds>.tar.gz.enc`. */
  function ArchiveName(elapsed: nat): Name
  {
    "export_" + NatToString(elapsed) + ".tar.gz.enc"
  }

  /** The time stamp in an archive's name, when it has the shape `export_<digits>.tar.gz.enc`. */
  function StampOf(name: Name): Option<int>
  {
    if |name| >= 18 && name[..7] == "export_" && name[|name| - 11..] == ".tar.gz.enc"
    then ParseInt(name[7..|name| - 11])
    else None
  }

  /** The stamp can be read back from the name, so two exports made at different values of
      `int(os.times()[4])` (the time elapsed since a fixed point in the past) never produce the
      same archive name. */
  lemma ArchiveNameStamp(elapsed: nat)
    ensures StampOf(ArchiveName(elapsed)) == Some(elapsed as int)
  {
    var d := NatToString(elapsed);
    var name := ArchiveName(elapsed);
    ParseIntOfNatToString(elapsed);
    assert |d| >= 1;
    assert name[..7] == "export_";
    assert name[|name| - 11..] == ".tar.gz.enc";
    assert name[7..|name| - 11] == d;
  }

  lemma ArchiveNameInjective(a: nat, b: nat)
    requires ArchiveName(a) == ArchiveName(b)
    ensures a == b
  {
    ArchiveNameStamp(a);
    ArchiveNameStamp(b);
  }

  class Session {
    /** The filesystem. */
    var fs: FS
    /** The contents of `.undo_list`; `None` while the file does not exist. */
    var undo: Option<seq<Path>>
    /** The contents of `termuxport.log`. */
    var log: seq<LogLine>
    /** The total and the position of the last progress bar. */
    var barTotal: nat
    var barDone: nat
    /** The notifications sent, by content. */
    var notices: seq<string>
    /** `TMP`, where the archive is built before it is encrypted. */
    const tmp: Path

    ghost predicate Valid()
      reads this
    {
      WF(fs)
    }

    /** Start-up (lines 22-24): `TMP` and the default destination are created when missing;
        the undo file and the log are as earlier runs left them. */
    constructor (fs0: FS, tmpDir: Path, defaultDest: Path, undo0: Option<seq<Path>>, log0: seq<LogLine>)
      requires WF(fs0) && NoFileOnPath(fs0, tmpDir) && NoFileOnPath(MkdirAll(fs0, tmpDir), defaultDest)
      ensures Valid() && tmp == tmpDir
      ensures fs == MkdirAll(MkdirAll(fs0, tmpDir), defaultDest)
      ensures IsDir(fs, tmpDir) && IsDir(fs, defaultDest)
      ensures undo == undo0 && log == log0 && barTotal == 0 && barDone == 0 && notices == []
    {
      var fs1 := MkdirAll(fs0, tmpDir);
      MkdirAllWF(fs0, tmpDir);
      MkdirAllWF(fs1, defaultDest);
      var fs2 := MkdirAll(fs1, defaultDest);
      assert IsDir(fs1, tmpDir);
      assert tmpDir in fs1 ==> tmpDir in fs2;
      fs := fs2;
      tmp := tmpDir;
      undo := undo0;
      log := log0;
      barTotal := 0;
      barDone := 0;
      notices := [];
    }

    /** One file copy with its bookkeeping (lines 118-122 and 131-135): `copy2`, the undo
        line, the progress bar advanced by the source's size, the log line. When `dst` is an
        existing directory, `copy2` writes the file inside it, yet the undo line still names `dst`.
        `copy2` raises where the file would land on a directory or on its own source, and when
        `dst`'s parent is missing. */
    method CopyFile(src: Path, dst: Path)
      requires Valid() && undo.Some? && IsFile(fs, src)
      requires dst != [] && IsDir(fs, Parent(dst))
      requires !IsDir(fs, Landing(fs, src, dst)) && Landing(fs, src, dst) != src
      modifies this
      ensures Valid()
      ensures fs == Copy2(old(fs), src, dst)
      ensures undo == Some(old(undo).value + [dst])
      ensures log == old(log) + [Copied(src)]
      ensures barDone == old(barDone) + old(fs)[src].size
      ensures barTotal == old(barTotal) && notices == old(notices)
    {
      Copy2WF(fs, src, dst);
      fs := Copy2(fs, src, dst);
      undo := Some(undo.value + [dst]);
      barDone := barDone + SizeOf(fs, src);
      log := log + [Copied(src)];
    }

    /** One file of a walked root (lines 129-135): `root / f` is copied to `dest_root / f`. */
    method CopyWalkedFile(fs0: FS, item: Path, dest: Path, ghost dirs: set<Path>, ghost files: set<Path>, root: Path, f: Path)
      returns (dst: Path)
      requires Valid() && undo.Some? && Walking(fs0, item, dest, dirs, files) && root in dirs
      requires f in FilesIn(fs0, root) && fs == Overlay(fs0, item, dest, dirs, files)
      modifies this
      ensures Valid() && Parent(item) <= f && dst == DestFor(item, dest, f)
      ensures fs == Overlay(fs0, item, dest, dirs, files + {f})
      ensures undo == Some(old(undo).value + [dst]) && log == old(log) + [Copied(f)]
      ensures barDone == old(barDone) + fs0[f].size
      ensures barTotal == old(barTotal) && notices == old(notices)
    {
      CopyRoom(fs0, item, dest, dirs, files, root, f);
      CopyStep(fs0, item, dest, dirs, files, root, f);
      dst := DestFor(item, dest, root) + [BaseName(f)];
      CopyFile(f, dst);
    }

    /** The state part way through the files of one walked root (see `RootStage`). */
    ghost predicate FilesStage(fs0: FS, item: Path, dest: Path, dirs: set<Path>, before: set<Path>, root: Path,
                               copied: set<Path>, pairs: seq<(Path, Path)>,
                               undo0: seq<Path>, log0: seq<LogLine>, done0: nat)
      reads this
    {
      RootStage(fs, undo, log, barDone, fs0, item, dest, dirs, before, root, copied, pairs, undo0, log0, done0)
    }

    /** One turn of the inner loop of the walk: the next file `f` of the root's listing is copied,
        and the copy so far grows by it. */
    method CopyNextFile(fs0: FS, item: Path, dest: Path, ghost dirs: set<Path>, ghost before: set<Path>, root: Path,
                        f: Path, ghost copied: set<Path>, ghost pairs: seq<(Path, Path)>,
                        ghost undo0: seq<Path>, ghost log0: seq<LogLine>, ghost done0: nat)
      returns (dst: Path)
      requires FilesStage(fs0, item, dest, dirs, before, root, copied, pairs, undo0, log0, done0)
      requires Walking(fs0, item, dest, dirs, before) && root in dirs
      requires f in FilesIn(fs0, root) && f !in copied
      modifies this
      ensures FilesStage(fs0, item, dest, dirs, before, root, copied + {f}, pairs + [(f, dst)], undo0, log0, done0)
      ensures barTotal == old(barTotal) && notices == old(notices)
    {
      ghost var fs1, u1, l1, d1 := fs, undo, log, barDone;
      RootFilesWalked(fs0, item, dest, dirs, before, root, copied);
      dst := CopyWalkedFile(fs0, item, dest, dirs, before + copied, root, f);
      RootStageStep(fs1, u1, l1, d1, fs, undo, log, barDone, fs0, item, dest, dirs, before, root,
                    copied, pairs, undo0, log0, done0, f, dst);
    }

    /** The inner loop of the walk (lines 128-135): the files `os.walk` lists for one root, each
        copied into the root's destination directory, in no particular order. */
    method CopyRootFiles(fs0: FS, item: Path, dest: Path, ghost dirs: set<Path>, ghost before: set<Path>, root: Path)
      returns (ghost pairs: seq<(Path, Path)>)
      requires Valid() && undo.Some? && Walking(fs0, item, dest, dirs, before) && root in dirs
      requires fs == Overlay(fs0, item, dest, dirs, before)
      modifies this
      ensures Valid()
      ensures fs == Overlay(fs0, item, dest, dirs, before + FilesIn(fs0, root))
      ensures Accounted(item, dest, FilesIn(fs0, root), pairs)
      ensures undo == Some(old(undo).value + Dests(pairs)) && log == old(log) + CopyLines(pairs)
      ensures barDone == old(barDone) + SizeSum(fs0, FilesIn(fs0, root))
      ensures barTotal == old(barTotal) && notices == old(notices)
    {
      ghost var undo0 := undo.value;
      ghost var log0 := log;
      ghost var done0 := barDone;
      ghost var copied: set<Path> := {};
      var todo := FilesIn(fs0, root);
      pairs := [];
      RootStageStart(fs, undo, log, barDone, fs0, item, dest, dirs, before, root);
      while todo != {}
        invariant FilesStage(fs0, item, dest, dirs, before, root, copied, pairs, undo0, log0, done0)
        invariant copied + todo == FilesIn(fs0, root) && copied !! todo
        invariant barTotal == old(barTotal) && notices == old(notices)
        decreases todo
      {
        var f :| f in todo;
        var dst := CopyNextFile(fs0, item, dest, dirs, before, root, f, copied, pairs, undo0, log0, done0);
        pairs := pairs + [(f, dst)];
        SetMove(copied, todo, f);
        copied := copied + {f};
        todo := todo - {f};
      }
    }

    /** `dest_root.mkdir(parents=True, exist_ok=True)` (line 127): the directory `d` and its
        missing ancestors are created. The ghost `target` is the tree the caller has proved this
        gives, so that the caller's proof needs no facts about `MkdirAll` in the heap context. */
    method MakeDirs(d: Path, ghost target: FS)
      requires Valid() && NoFileOnPath(fs, d) && WF(target) && MkdirAll(fs, d) == target
      modifies this
      ensures Valid() && fs == target
      ensures undo == old(undo) && log == old(log) && barDone == old(barDone)
      ensures barTotal == old(barTotal) && notices == old(notices)
    {
      fs := MkdirAll(fs, d);
    }

    /** The `os.walk` branch of the copy (lines 124-135): the roots are taken top-down, as
        `os.walk` yields them; each root's destination directory is created, then its files
        are copied into it. The walk lists the source tree as it was when the item's copy
        began: nothing below the item changes meanwhile, since the item and `dest / item.name` do not
        contain each other. */
    method CopyTree(item: Path, dest: Path) returns (ghost pairs: seq<(Path, Path)>)
      requires Valid() && undo.Some? && TreeCopy(fs, item, dest)
      modifies this
      ensures Valid()
      ensures fs == ItemCopied(old(fs), item, dest)
      ensures multiset(pairs) == multiset(PairsOf(old(fs), item, dest))
      ensures undo == Some(old(undo).value + Dests(pairs))
      ensures log == old(log) + CopyLines(pairs)
      ensures barDone == old(barDone) + ItemSize(old(fs), item)
      ensures barTotal == old(barTotal) && notices == old(notices)
    {
      var fs0 := fs;
      ghost var undo0 := undo.value;
      ghost var log0 := log;
      ghost var done0 := barDone;
      var roots := Walk(fs0, item);
      ghost var dirs: set<Path> := {};
      ghost var files: set<Path> := {};
      pairs := [];
      TreeStageStart(fs0, item, dest, undo0, log0, done0);
      while roots != {}
        invariant TreeStage(fs, undo, log, barDone, fs0, item, dest, dirs, roots, files, pairs, undo0, log0, done0)
        invariant barTotal == old(barTotal) && notices == old(notices)
        decreases roots
      {
        TopDownNext(fs0, item, dest, roots);
        var root :| root in roots && (root == item || Parent(root) in Walk(fs0, item) - roots);
        ghost var fs1, u1, l1, d1 := fs, undo, log, barDone;
        TreeStageNext(fs, undo, log, barDone, fs0, item, dest, dirs, roots, files, pairs, undo0, log0, done0, root);
        MakeDirs(DestFor(item, dest, root), Overlay(fs0, item, dest, dirs + {root}, files));
        var more := CopyRootFiles(fs0, item, dest, dirs + {root}, files, root);
        TreeStageStep(fs1, u1, l1, d1, fs, undo, log, barDone, fs0, item, dest, dirs, roots, files, pairs,
                      undo0, log0, done0, root, more);
        dirs := dirs + {root};
        roots := roots - {root};
        files := files + FilesIn(fs0, root);
        pairs := pairs + more;
      }
      TreeStageDone(fs, undo, log, barDone, fs0, item, dest, dirs, files, pairs, undo0, log0, done0);
    }

    /** One selected item (lines 116-135): a file is copied to `dest / item.name`, a directory
        walked, anything else skipped. */
    method CopyItem(item: Path, dest: Path) returns (ghost pairs: seq<(Path, Path)>)
      requires Valid() && undo.Some? && ItemCopyable(fs, item, dest)
      modifies this
      ensures Valid()
      ensures fs == ItemCopied(old(fs), item, dest)
      ensures multiset(pairs) == multiset(PairsOf(old(fs), item, dest))
      ensures undo == Some(old(undo).value + Dests(pairs))
      ensures log == old(log) + CopyLines(pairs)
      ensures barDone == old(barDone) + ItemSize(old(fs), item)
      ensures barTotal == old(barTotal) && notices == old(notices)
    {
      ItemSizeCases(fs, item);
      if IsFile(fs, item) {
        FileItemCopy(fs, item, dest);
        var dst := dest + [BaseName(item)];
        CopyFile(item, dst);
        pairs := [(item, dst)];
        assert Dests(pairs) == [dst] && CopyLines(pairs) == [Copied(item)];
      } else if IsDir(fs, item) {
        pairs := CopyTree(item, dest);
      } else {
        pairs := [];
        assert PairsOf(fs, item, dest) == {};
        assert undo.value + Dests(pairs) == undo.value && log + CopyLines(pairs) == log;
      }
    }

    /** `copy_with_progress(items, dest)`: the progress bar is set to the selection's total,
        the undo file is started afresh, the items are copied in order, and a notification is
        sent when notifications are on. */
    method CopyWithProgress(items: seq<Path>, dest: Path, notify: bool) returns (ghost trace: seq<(Path, Path)>)
      requires Valid() && Copyable(fs, items, dest)
      modifies this
      ensures Valid()
      ensures fs == CopyResult(old(fs), items, dest)
      ensures barTotal == TotalSize(old(fs), items) && barDone == barTotal
      ensures multiset(trace) == Plan(old(fs), items, dest)
      ensures undo == Some(Dests(trace)) && log == old(log) + CopyLines(trace)
      ensures notices == old(notices) + (if notify then [CopyNotice] else [])
    {
      var fs0 := fs;
      ghost var log0 := log;
      var total := GetTotalSize(fs, items);
      undo := Some([]);
      barTotal := total;
      barDone := 0;
      trace := [];
      SelectionStart(fs0, items, dest, log0);
      var i := 0;
      while i < |items|
        invariant SelectionStage(fs, undo, log, barDone, fs0, items, i, dest, trace, log0)
        invariant barTotal == total && notices == old(notices)
      {
        SelectionNext(fs, undo, log, barDone, fs0, items, i, dest, trace, log0);
        ghost var fs1, u1, l1, d1 := fs, undo, log, barDone;
        var pairs := CopyItem(items[i], dest);
        SelectionAdvance(fs1, u1, l1, d1, fs, undo, log, barDone, fs0, items, i, dest, trace, log0, pairs);
        trace := trace + pairs;
        i := i + 1;
      }
      SelectionDone(fs, undo, log, barDone, fs0, items, dest, trace, log0);
      if notify {
        notices := notices + [CopyNotice];
      }
    }

    /** `undo_last()`: without an undo file nothing happens; otherwise every listed path that
        exists is removed with `rm -rf` and the log records the undo. The undo file itself
        stays, so a second undo removes nothing more. */
    method UndoLast()
      requires Valid()
      modifies this
      ensures Valid()
      ensures old(undo).None? ==> fs == old(fs) && log == old(log)
      ensures old(undo).Some? ==> fs == RemoveListed(old(fs), old(undo).value) && log == old(log) + [UndoExecuted]
      ensures undo == old(undo) && barTotal == old(barTotal) && barDone == old(barDone) && notices == old(notices)
    {
      if undo.None? {
        return;
      }
      var lines := undo.value;
      var fs0 := fs;
      var i := 0;
      while i < |lines|
        invariant 0 <= i <= |lines|
        invariant fs == RemoveListed(fs0, lines[..i])
        invariant undo == old(undo) && log == old(log) && barTotal == old(barTotal)
        invariant barDone == old(barDone) && notices == old(notices)
      {
        var path := lines[i];
        assert lines[..i + 1][..i] == lines[..i];
        if path != [] && path in fs {
          fs := RemoveTree(fs, path);
        }
        i := i + 1;
      }
      assert lines[..i] == lines;
      RemoveListedWF(fs0, lines);
      log := log + [UndoExecuted];
    }

    /** `encrypt_and_copy(items, dest)` (lines 140-153). `tar` and `openssl` are not modelled:
        `archived` and `sealed` are the sizes of what they wrote (`None` when one wrote
        nothing), and `elapsed` is `int(os.times()[4])`. The archive goes to `TMP/export.tar.gz`,
        the encrypted copy to `dest/export_<elapsed>.tar.gz.enc`; the log records the encrypted
        copy whether or not it was written, and the undo file is replaced by one that lists
        only the encrypted copy. */
    method EncryptAndCopy(dest: Path, elapsed: nat, archived: Option<nat>, sealed: Option<nat>, notify: bool)
      returns (tarfile: Path, encfile: Path)
      requires Valid()
      modifies this
      ensures Valid()
      ensures tarfile == tmp + ["export.tar.gz"] && encfile == dest + [ArchiveName(elapsed)]
      ensures var fs1 := if archived.Some? && IsDir(old(fs), tmp) && !IsDir(old(fs), tarfile)
                         then old(fs)[tarfile := File(archived.value)] else old(fs);
              fs == if sealed.Some? && IsDir(fs1, dest) && !IsDir(fs1, encfile)
                    then fs1[encfile := File(sealed.value)] else fs1
      ensures log == old(log) + [Encrypted(encfile)] && undo == Some([encfile])
      ensures notices == old(notices) + (if notify then [EncryptNotice] else [])
      ensures barTotal == old(barTotal) && barDone == old(barDone)
    {
      tarfile := tmp + ["export.tar.gz"];
      encfile := dest + [ArchiveName(elapsed)];
      if archived.Some? && IsDir(fs, tmp) && !IsDir(fs, tarfile) {
        AddFileWF(fs, tarfile, archived.value);
        fs := fs[tarfile := File(archived.value)];
      }
      if sealed.Some? && IsDir(fs, dest) && !IsDir(fs, encfile) {
        AddFileWF(fs, encfile, sealed.value);
        fs := fs[encfile := File(sealed.value)];
      }
      log := log + [Encrypted(encfile)];
      undo := Some([encfile]);
      if notify {
        notices := notices + [EncryptNotice];
      }
    }
  }

  /** Partway through a tree copy: the source tree qualifies, and `dirs` and `files` are
      among the roots and files the walk lists. */
  ghost predicate Walking(fs0: FS, item: Path, dest: Path, dirs: set<Path>, files: set<Path>)
  {
    TreeCopy(fs0, item, dest) && dirs <= Walk(fs0, item) && files <= FilesUnder(fs0, item)
  }

  /** The copies `pairs` are those of the sources `copied`, each once. */
  ghost predicate Accounted(item: Path, dest: Path, copied: set<Path>, pairs: seq<(Path, Path)>)
  {
    multiset(pairs) == multiset(PairSet(item, dest, copied))
  }

  /** The state part way through the files of one walked root: the tree `fs` is sound, the
      roots `dirs` have been created, the files `before` of earlier roots and `copied` of this
      one have been copied, and the undo list, the log and the bar account for the copies
      `pairs` of this root on top of `undo0`, `log0` and `done0`. */
  ghost predicate RootStage(fs: FS, undo: Option<seq<Path>>, log: seq<LogLine>, done: nat,
                            fs0: FS, item: Path, dest: Path, dirs: set<Path>, before: set<Path>, root: Path,
                            copied: set<Path>, pairs: seq<(Path, Path)>,
                            undo0: seq<Path>, log0: seq<LogLine>, done0: nat)
  {
    && WF(fs) && copied <= FilesIn(fs0, root)
    && fs == Overlay(fs0, item, dest, dirs, before + copied)
    && Accounted(item, dest, copied, pairs)
    && undo == Some(undo0 + Dests(pairs)) && log == log0 + CopyLines(pairs)
    && done == done0 + SizeSum(fs0, copied)
  }

  /** Before the first file of a root nothing of it has been copied. */
  lemma RootStageStart(fs: FS, undo: Option<seq<Path>>, log: seq<LogLine>, done: nat,
                       fs0: FS, item: Path, dest: Path, dirs: set<Path>, before: set<Path>, root: Path)
    requires WF(fs) && undo.Some? && fs == Overlay(fs0, item, dest, dirs, before)
    ensures RootStage(fs, undo, log, done, fs0, item, dest, dirs, before, root, {}, [], undo.value, log, done)
  {
    assert undo.value + Dests([]) == undo.value && log + CopyLines([]) == log;
    assert before + {} == before;
    NothingAccounted(fs0, item, dest);
  }

  /** Copying the next file `f` of the root to its destination advances the stage by it. */
  lemma RootStageStep(fs: FS, undo: Option<seq<Path>>, log: seq<LogLine>, done: nat,
                      fs': FS, undo': Option<seq<Path>>, log': seq<LogLine>, done': nat,
                      fs0: FS, item: Path, dest: Path, dirs: set<Path>, before: set<Path>, root: Path,
                      copied: set<Path>, pairs: seq<(Path, Path)>,
                      undo0: seq<Path>, log0: seq<LogLine>, done0: nat, f: Path, dst: Path)
    requires RootStage(fs, undo, log, done, fs0, item, dest, dirs, before, root, copied, pairs, undo0, log0, done0)
    requires f in FilesIn(fs0, root) && f !in copied && Parent(item) <= f && dst == DestFor(item, dest, f)
    requires WF(fs') && fs' == Overlay(fs0, item, dest, dirs, before + copied + {f})
    requires undo.Some? && undo' == Some(undo.value + [dst]) && log' == log + [Copied(f)]
    requires done' == done + fs0[f].size
    ensures RootStage(fs', undo', log', done', fs0, item, dest, dirs, before, root,
                      copied + {f}, pairs + [(f, dst)], undo0, log0, done0)
  {
    assert before + copied + {f} == before + (copied + {f});
    BooksStep(undo, log, done, undo', log', done', fs0, item, dest, copied, pairs, undo0, log0, done0, f, dst);
  }

  /** The undo list, the log and the bar after one more copy. */
  lemma BooksStep(undo: Option<seq<Path>>, log: seq<LogLine>, done: nat,
                  undo': Option<seq<Path>>, log': seq<LogLine>, done': nat,
                  fs0: FS, item: Path, dest: Path, copied: set<Path>, pairs: seq<(Path, Path)>,
                  undo0: seq<Path>, log0: seq<LogLine>, done0: nat, f: Path, dst: Path)
    requires Accounted(item, dest, copied, pairs) && f !in copied && Parent(item) <= f
    requires undo == Some(undo0 + Dests(pairs)) && log == log0 + CopyLines(pairs)
    requires done == done0 + SizeSum(fs0, copied) && dst == DestFor(item, dest, f)
    requires undo' == Some(undo.value + [dst]) && log' == log + [Copied(f)] && done' == done + SizeOf(fs0, f)
    ensures Accounted(item, dest, copied + {f}, pairs + [(f, dst)])
    ensures undo' == Some(undo0 + Dests(pairs + [(f, dst)])) && log' == log0 + CopyLines(pairs + [(f, dst)])
    ensures done' == done0 + SizeSum(fs0, copied + {f})
  {
    AccountedStep(fs0, item, dest, copied, pairs, f);
    AppendCopy(undo0, log0, pairs, (f, dst));
  }

  /** No copies account for no sources, of no size. */
  lemma NothingAccounted(fs0: FS, item: Path, dest: Path)
    ensures Accounted(item, dest, {}, []) && SizeSum(fs0, {}) == 0
  {
    assert PairSet(item, dest, {}) == {};
  }

  /** Files of a walked root are files of the walk. */
  lemma RootFilesWalked(fs0: FS, item: Path, dest: Path, dirs: set<Path>, before: set<Path>, root: Path,
                        copied: set<Path>)
    requires Walking(fs0, item, dest, dirs, before) && root in dirs && copied <= FilesIn(fs0, root)
    ensures Walking(fs0, item, dest, dirs, before + copied)
  {
    FilesInWalked(fs0, item, root);
  }

  /** The account after one more copy. */
  lemma AccountedStep(fs0: FS, item: Path, dest: Path, copied: set<Path>, pairs: seq<(Path, Path)>, f: Path)
    requires Accounted(item, dest, copied, pairs) && f !in copied && Parent(item) <= f
    ensures Accounted(item, dest, copied + {f}, pairs + [(f, DestFor(item, dest, f))])
    ensures SizeSum(fs0, copied + {f}) == SizeSum(fs0, copied) + SizeOf(fs0, f)
  {
    PairSetAdd(item, dest, copied, f);
    SizeSumAdd(fs0, copied, f);
  }

  /** The state part way through the walk of a directory: the tree `fs` is sound, the roots
      `dirs` have been created and all their files copied, the roots `roots` remain, and the
      undo list, the log and the bar account for the copies `pairs` on top of `undo0`,
      `log0` and `done0`. */
  ghost predicate TreeStage(fs: FS, undo: Option<seq<Path>>, log: seq<LogLine>, done: nat,
                            fs0: FS, item: Path, dest: Path, dirs: set<Path>, roots: set<Path>,
                            files: set<Path>, pairs: seq<(Path, Path)>,
                            undo0: seq<Path>, log0: seq<LogLine>, done0: nat)
  {
    && WF(fs) && TreeCopy(fs0, item, dest)
    && dirs + roots == Walk(fs0, item) && dirs !! roots
    && files == FilesOfRoots(fs0, dirs)
    && fs == Overlay(fs0, item, dest, dirs, files)
    && Accounted(item, dest, files, pairs)
    && undo == Some(undo0 + Dests(pairs)) && log == log0 + CopyLines(pairs)
    && done == done0 + SizeSum(fs0, files)
  }

  /** Before the walk nothing has been done. */
  lemma TreeStageStart(fs0: FS, item: Path, dest: Path, undo0: seq<Path>, log0: seq<LogLine>, done0: nat)
    requires WF(fs0) && TreeCopy(fs0, item, dest)
    ensures TreeStage(fs0, Some(undo0), log0, done0, fs0, item, dest, {}, Walk(fs0, item), {}, [], undo0, log0, done0)
  {
    assert FilesOfRoots(fs0, {}) == {};
    assert undo0 + Dests([]) == undo0 && log0 + CopyLines([]) == log0;
    NothingAccounted(fs0, item, dest);
    OverlayEmpty(fs0, item, dest);
  }

  /** The next root of a top-down walk: its files are not copied yet, and creating its
      destination directory keeps the tree sound and reaches the next state of the walk. */
  lemma TreeStageNext(fs: FS, undo: Option<seq<Path>>, log: seq<LogLine>, done: nat,
                      fs0: FS, item: Path, dest: Path, dirs: set<Path>, roots: set<Path>,
                      files: set<Path>, pairs: seq<(Path, Path)>,
                      undo0: seq<Path>, log0: seq<LogLine>, done0: nat, root: Path)
    requires TreeStage(fs, undo, log, done, fs0, item, dest, dirs, roots, files, pairs, undo0, log0, done0)
    requires root in roots && (root == item || Parent(root) in Walk(fs0, item) - roots)
    ensures Walking(fs0, item, dest, dirs + {root}, files) && files !! FilesIn(fs0, root)
    ensures NoFileOnPath(fs, DestFor(item, dest, root)) && WF(MkdirAll(fs, DestFor(item, dest, root)))
    ensures MkdirAll(fs, DestFor(item, dest, root)) == Overlay(fs0, item, dest, dirs + {root}, files)
  {
    assert Walk(fs0, item) - roots == dirs;
    WalkStep(fs0, item, dest, dirs, files, root);
    MkdirAllWF(fs, DestFor(item, dest, root));
  }

  /** Once a root's directory is created and its files copied, the walk has done that root. */
  lemma TreeStageStep(fs: FS, undo: Option<seq<Path>>, log: seq<LogLine>, done: nat,
                      fs': FS, undo': Option<seq<Path>>, log': seq<LogLine>, done': nat,
                      fs0: FS, item: Path, dest: Path, dirs: set<Path>, roots: set<Path>,
                      files: set<Path>, pairs: seq<(Path, Path)>,
                      undo0: seq<Path>, log0: seq<LogLine>, done0: nat, root: Path, more: seq<(Path, Path)>)
    requires TreeStage(fs, undo, log, done, fs0, item, dest, dirs, roots, files, pairs, undo0, log0, done0)
    requires root in roots && files !! FilesIn(fs0, root)
    requires WF(fs') && fs' == Overlay(fs0, item, dest, dirs + {root}, files + FilesIn(fs0, root))
    requires Accounted(item, dest, FilesIn(fs0, root), more)
    requires undo' == Some(undo.value + Dests(more)) && log' == log + CopyLines(more)
    requires done' == done + SizeSum(fs0, FilesIn(fs0, root))
    ensures TreeStage(fs', undo', log', done', fs0, item, dest, dirs + {root}, roots - {root},
                      files + FilesIn(fs0, root), pairs + more, undo0, log0, done0)
  {
    SetMove(dirs, roots, root);
    FilesOfRootsAdd(fs0, dirs, root);
    PairSetUnion(item, dest, files, FilesIn(fs0, root));
    SizeSumUnion(fs0, files, FilesIn(fs0, root));
    AppendCopies(undo0, log0, pairs, more);
  }

  /** After the last root the walk has copied the directory. */
  lemma TreeStageDone(fs: FS, undo: Option<seq<Path>>, log: seq<LogLine>, done: nat,
                      fs0: FS, item: Path, dest: Path, dirs: set<Path>,
                      files: set<Path>, pairs: seq<(Path, Path)>,
                      undo0: seq<Path>, log0: seq<LogLine>, done0: nat)
    requires TreeStage(fs, undo, log, done, fs0, item, dest, dirs, {}, files, pairs, undo0, log0, done0)
    ensures fs == ItemCopied(fs0, item, dest) && multiset(pairs) == multiset(PairsOf(fs0, item, dest))
    ensures undo == Some(undo0 + Dests(pairs)) && log == log0 + CopyLines(pairs)
    ensures done == done0 + ItemSize(fs0, item)
  {
    assert dirs == Walk(fs0, item);
    FilesOfWalk(fs0, item, dest);
    ItemSizeCases(fs0, item);
  }

  /** The state after the first `i` items of a selection: the tree `fs` is sound, copying the
      rest from here ends where copying the whole selection from `fs0` ends, and the bar and
      the copies `trace` make up for what the rest will add. */
  ghost predicate Remaining(fs: FS, done: nat, fs0: FS, items: seq<Path>, i: nat, dest: Path, trace: seq<(Path, Path)>)
  {
    && i <= |items| && WF(fs) && Copyable(fs, items[i..], dest)
    && CopyResult(fs, items[i..], dest) == CopyResult(fs0, items, dest)
    && done + Advanced(fs, items[i..], dest) == Advanced(fs0, items, dest)
    && multiset(trace) + Plan(fs, items[i..], dest) == Plan(fs0, items, dest)
  }

  /** The undo list and the log list the copies `trace`, the log after the lines `log0`. */
  ghost predicate Recorded(undo: Option<seq<Path>>, log: seq<LogLine>, trace: seq<(Path, Path)>, log0: seq<LogLine>)
  {
    undo == Some(Dests(trace)) && log == log0 + CopyLines(trace)
  }

  /** The state after the first `i` items of a selection. */
  ghost predicate SelectionStage(fs: FS, undo: Option<seq<Path>>, log: seq<LogLine>, done: nat,
                                 fs0: FS, items: seq<Path>, i: nat, dest: Path,
                                 trace: seq<(Path, Path)>, log0: seq<LogLine>)
  {
    Remaining(fs, done, fs0, items, i, dest, trace) && Recorded(undo, log, trace, log0)
  }

  /** Before the first item nothing has been copied. */
  lemma SelectionStart(fs0: FS, items: seq<Path>, dest: Path, log0: seq<LogLine>)
    requires WF(fs0) && Copyable(fs0, items, dest)
    ensures SelectionStage(fs0, Some([]), log0, 0, fs0, items, 0, dest, [], log0)
  {
    assert items[0..] == items;
    assert Dests([]) == [] && log0 + CopyLines([]) == log0;
  }

  /** The next item of the selection can be copied. */
  lemma SelectionNext(fs: FS, undo: Option<seq<Path>>, log: seq<LogLine>, done: nat,
                      fs0: FS, items: seq<Path>, i: nat, dest: Path,
                      trace: seq<(Path, Path)>, log0: seq<LogLine>)
    requires SelectionStage(fs, undo, log, done, fs0, items, i, dest, trace, log0) && i < |items|
    ensures ItemCopyable(fs, items[i], dest)
  {
    SelectionStep(fs, items, i, dest);
  }

  /** Copying the next item advances what remains by one item. */
  lemma RemainingAdvance(fs: FS, done: nat, fs': FS, done': nat, fs0: FS, items: seq<Path>, i: nat, dest: Path,
                         trace: seq<(Path, Path)>, pairs: seq<(Path, Path)>)
    requires Remaining(fs, done, fs0, items, i, dest, trace) && i < |items|
    requires WF(fs') && fs' == ItemCopied(fs, items[i], dest)
    requires multiset(pairs) == multiset(PairsOf(fs, items[i], dest))
    requires done' == done + ItemSize(fs, items[i])
    ensures Remaining(fs', done', fs0, items, i + 1, dest, trace + pairs)
  {
    SelectionStep(fs, items, i, dest);
    assert multiset(trace + pairs) == multiset(trace) + multiset(pairs);
  }

  /** The undo list and the log after the copies of one more item. */
  lemma RecordedAdvance(undo: Option<seq<Path>>, log: seq<LogLine>, undo': Option<seq<Path>>, log': seq<LogLine>,
                      trace: seq<(Path, Path)>, log0: seq<LogLine>, pairs: seq<(Path, Path)>)
    requires Recorded(undo, log, trace, log0)
    requires undo' == Some(undo.value + Dests(pairs)) && log' == log + CopyLines(pairs)
    ensures Recorded(undo', log', trace + pairs, log0)
  {
    AppendCopies([], log0, trace, pairs);
    assert [] + Dests(trace + pairs) == Dests(trace + pairs) && [] + Dests(trace) == Dests(trace);
  }

  /** Copying the next item advances the selection by one. */
  lemma SelectionAdvance(fs: FS, undo: Option<seq<Path>>, log: seq<LogLine>, done: nat,
                         fs': FS, undo': Option<seq<Path>>, log': seq<LogLine>, done': nat,
                         fs0: FS, items: seq<Path>, i: nat, dest: Path,
                         trace: seq<(Path, Path)>, log0: seq<LogLine>, pairs: seq<(Path, Path)>)
    requires SelectionStage(fs, undo, log, done, fs0, items, i, dest, trace, log0) && i < |items|
    requires WF(fs') && fs' == ItemCopied(fs, items[i], dest)
    requires multiset(pairs) == multiset(PairsOf(fs, items[i], dest))
    requires undo' == Some(undo.value + Dests(pairs)) && log' == log + CopyLines(pairs)
    requires done' == done + ItemSize(fs, items[i])
    ensures SelectionStage(fs', undo', log', done', fs0, items, i + 1, dest, trace + pairs, log0)
  {
    RemainingAdvance(fs, done, fs', done', fs0, items, i, dest, trace, pairs);
    RecordedAdvance(undo, log, undo', log', trace, log0, pairs);
  }

  /** After the last item the selection has been copied. */
  lemma SelectionDone(fs: FS, undo: Option<seq<Path>>, log: seq<LogLine>, done: nat,
                      fs0: FS, items: seq<Path>, dest: Path,
                      trace: seq<(Path, Path)>, log0: seq<LogLine>)
    requires SelectionStage(fs, undo, log, done, fs0, items, |items|, dest, trace, log0)
    requires Copyable(fs0, items, dest)
    ensures fs == CopyResult(fs0, items, dest) && done == TotalSize(fs0, items)
    ensures multiset(trace) == Plan(fs0, items, dest)
    ensures undo == Some(Dests(trace)) && log == log0 + CopyLines(trace)
  {
    assert items[|items|..] == [];
    AdvancedIsTotal(fs0, items, dest);
  }

  /** Moving an element from one of two disjoint sets to the other keeps them disjoint and
      keeps their union. */
  lemma SetMove<T>(a: set<T>, b: set<T>, x: T)
    requires x in b && a !! b
    ensures (a + {x}) + (b - {x}) == a + b && (a + {x}) !! (b - {x})
  {
  }

  /** The undo file and the log after one more copy. */
  lemma AppendCopy(u0: seq<Path>, l0: seq<LogLine>, t: seq<(Path, Path)>, x: (Path, Path))
    ensures u0 + Dests(t + [x]) == (u0 + Dests(t)) + [x.1]
    ensures l0 + CopyLines(t + [x]) == (l0 + CopyLines(t)) + [Copied(x.0)]
  {
    assert (t + [x])[..|t|] == t;
  }

  /** The undo file and the log after a further sequence of copies. */
  lemma {:induction false} AppendCopies(u0: seq<Path>, l0: seq<LogLine>, a: seq<(Path, Path)>, b: seq<(Path, Path)>)
    ensures u0 + Dests(a + b) == (u0 + Dests(a)) + Dests(b)
    ensures l0 + CopyLines(a + b) == (l0 + CopyLines(a)) + CopyLines(b)
    decreases |b|
  {
    if b == [] {
      assert a + b == a;
    } else {
      var b' := b[..|b| - 1];
      var x := b[|b| - 1];
      assert a + b == (a + b') + [x] && b == b' + [x];
      AppendCopies(u0, l0, a, b');
      AppendCopy(u0, l0, a + b', x);
      AppendCopy(u0 + Dests(a), l0 + CopyLines(a), b', x);
    }
  }

  /** `os.walk` is top-down: while roots remain, one of them is the item or has its parent
      already walked. */
  lemma TopDownNext(fs: FS, item: Path, dest: Path, roots: set<Path>)
    requires TreeCopy(fs, item, dest) && roots <= Walk(fs, item) && roots != {}
    ensures exists r :: r in roots && (r == item || Parent(r) in Walk(fs, item) - roots)
  {
    var r :| r in roots;
    Descend(fs, item, dest, roots, r);
  }

  lemma {:induction false} Descend(fs: FS, item: Path, dest: Path, roots: set<Path>, r: Path)
    requires TreeCopy(fs, item, dest) && roots <= Walk(fs, item) && r in roots
    ensures exists r' :: r' in roots && (r' == item || Parent(r') in Walk(fs, item) - roots)
    decreases |r|
  {
    if r != item {
      WalkParent(fs, item, dest, r);
      if Parent(r) in roots {
        Descend(fs, item, dest, roots, Parent(r));
      }
    }
  }

  /** One root of the walk: its files are not yet copied, and creating its destination
      directory is the next state of the walk. */
  lemma WalkStep(fs: FS, item: Path, dest: Path, dirs: set<Path>, files: set<Path>, root: Path)
    requires TreeCopy(fs, item, dest) && dirs + {root} <= Walk(fs, item) && root !in dirs
    requires files == FilesOfRoots(fs, dirs) && (root == item || Parent(root) in dirs)
    requires WF(Overlay(fs, item, dest, dirs, files))
    ensures files <= FilesUnder(fs, item) && files !! FilesIn(fs, root)
    ensures Parent(item) <= root
    ensures NoFileOnPath(Overlay(fs, item, dest, dirs, files), DestFor(item, dest, root))
    ensures MkdirAll(Overlay(fs, item, dest, dirs, files), DestFor(item, dest, root))
         == Overlay(fs, item, dest, dirs + {root}, files)
  {
    forall f | f in files
      ensures f in FilesUnder(fs, item)
    {
      FilesInWalked(fs, item, Parent(f));
      assert f in FilesIn(fs, Parent(f));
    }
    MkdirStep(fs, item, dest, dirs, files, root);
  }

  /** The copy of the first remaining item of a selection, unfolded. */
  lemma SelectionStep(fs: FS, items: seq<Path>, i: nat, dest: Path)
    requires i < |items| && Copyable(fs, items[i..], dest)
    ensures ItemCopyable(fs, items[i], dest)
    ensures Copyable(ItemCopied(fs, items[i], dest), items[i + 1..], dest)
    ensures CopyResult(fs, items[i..], dest) == CopyResult(ItemCopied(fs, items[i], dest), items[i + 1..], dest)
    ensures Advanced(fs, items[i..], dest) == ItemSize(fs, items[i]) + Advanced(ItemCopied(fs, items[i], dest), items[i + 1..], dest)
    ensures Plan(fs, items[i..], dest) == multiset(PairsOf(fs, items[i], dest)) + Plan(ItemCopied(fs, items[i], dest), items[i + 1..], dest)
  {
    assert items[i..][0] == items[i] && items[i..][1..] == items[i + 1..];
  }
}
