/**
  The size accumulator `get_total_size` (termuxport.py:99-108): the number of bytes a
  selection amounts to, which the copy uses as the total of its progress bar.
 */
module Sizes {
  import opened Fs

  /** The regular files one selected item stands for: itself when it is a file, every
      file below it (hidden ones too, `os.walk` does not filter) when it is a directory,
      and nothing when it is neither (it does not exist). */
  function Sources(fs: FS, item: Path): set<Path>
  {
    if IsFile(fs, item) then {item} else if IsDir(fs, item) then FilesUnder(fs, item) else {}
  }

  /** What one item adds to the total. */
  ghost function ItemSize(fs: FS, item: Path): nat
  {
    SizeSum(fs, Sources(fs, item))
  }

  /** What a selection adds up to: the item sizes summed in selection order. */
  ghost function TotalSize(fs: FS, items: seq<Path>): nat
  {
    if items == [] then 0 else TotalSize(fs, items[..|items| - 1]) + ItemSize(fs, items[|items| - 1])
  }

  /** The three cases of one item: a file counts its size, a directory the sizes of all
      files below it, anything else nothing. */
  lemma ItemSizeCases(fs: FS, item: Path)
    ensures IsFile(fs, item) ==> ItemSize(fs, item) == fs[item].size
    ensures !IsFile(fs, item) && IsDir(fs, item) ==> ItemSize(fs, item) == SizeSum(fs, FilesUnder(fs, item))
    ensures !IsFile(fs, item) && !IsDir(fs, item) ==> ItemSize(fs, item) == 0
  {
    if IsFile(fs, item) {
      SizeSumRemove(fs, {item}, item);
      assert {item} - {item} == {};
      assert SizeSum(fs, {}) == 0;
    }
  }

  /** The total is the first item's size plus the total of the rest. */
  lemma TotalSizeFirst(fs: FS, items: seq<Path>)
    requires items != []
    ensures TotalSize(fs, items) == ItemSize(fs, items[0]) + TotalSize(fs, items[1..])
  {
    assert items == [items[0]] + items[1..];
    TotalSizeAppend(fs, [items[0]], items[1..]);
    assert [items[0]][..0] == [];
  }

  /** Totals of consecutive parts of a selection add up. */
  lemma {:induction false} TotalSizeAppend(fs: FS, a: seq<Path>, b: seq<Path>)
    ensures TotalSize(fs, a + b) == TotalSize(fs, a) + TotalSize(fs, b)
    decreases |b|
  {
    if b == [] {
      assert a + b == a;
    } else {
      var b' := b[..|b| - 1];
      assert (a + b)[..|a + b| - 1] == a + b';
      TotalSizeAppend(fs, a, b');
    }
  }

  /** Taking one item out of a selection takes its size out of the total. */
  lemma TotalSizeRemoveAt(fs: FS, b: seq<Path>, k: nat)
    requires k < |b|
    ensures TotalSize(fs, b) == TotalSize(fs, b[..k] + b[k + 1..]) + ItemSize(fs, b[k])
  {
    assert b == b[..k] + ([b[k]] + b[k + 1..]);
    TotalSizeAppend(fs, b[..k], [b[k]] + b[k + 1..]);
    TotalSizeAppend(fs, [b[k]], b[k + 1..]);
    TotalSizeAppend(fs, b[..k], b[k + 1..]);
    assert TotalSize(fs, [b[k]]) == ItemSize(fs, b[k]) by {
      assert [b[k]][..0] == [];
    }
  }

  lemma MultisetRemoveAt(b: seq<Path>, k: nat)
    requires k < |b|
    ensures multiset(b[..k] + b[k + 1..]) == multiset(b) - multiset{b[k]}
  {
    assert b == b[..k] + [b[k]] + b[k + 1..];
  }

  /** The order of the selection does not change its total. */
  lemma {:induction false} TotalSizeReordered(fs: FS, a: seq<Path>, b: seq<Path>)
    requires multiset(a) == multiset(b)
    ensures TotalSize(fs, a) == TotalSize(fs, b)
    decreases |a|
  {
    if b != [] {
      assert b[0] in multiset(b);
    }
    if a != [] {
      var n := |a| - 1;
      assert a[n] in multiset(b);
      var k :| 0 <= k < |b| && b[k] == a[n];
      MultisetRemoveAt(a, n);
      MultisetRemoveAt(b, k);
      assert a[..n] + a[n + 1..] == a[..n];
      TotalSizeReordered(fs, a[..n], b[..k] + b[k + 1..]);
      TotalSizeRemoveAt(fs, b, k);
    }
  }

  /** The innermost loop of `get_total_size` (lines 106-107): the sizes of the files of one walked root. */
  method FilesSize(fs: FS, files: set<Path>) returns (total: nat)
    requires forall f | f in files :: IsFile(fs, f)
    ensures total == SizeSum(fs, files)
  {
    total := 0;
    var todo := files;
    while todo != {}
      invariant todo <= files
      invariant total == SizeSum(fs, files - todo)
      decreases todo
    {
      var f :| f in todo;
      SizeSumAdd(fs, files - todo, f);
      assert files - todo + {f} == files - (todo - {f});
      total := total + fs[f].size;
      todo := todo - {f};
    }
    assert files - todo == files;
  }

  /** The `os.walk` loop of `get_total_size` (lines 104-107): the sizes of all files below `d`. */
  method WalkedSize(fs: FS, d: Path) returns (total: nat)
    requires WF(fs) && IsDir(fs, d)
    ensures total == SizeSum(fs, FilesUnder(fs, d))
  {
    total := 0;
    var roots := Walk(fs, d);
    ghost var counted: set<Path> := {};
    forall f | f in FilesUnder(fs, d)
      ensures Parent(f) in roots && f in FilesIn(fs, Parent(f))
    {
      FileParentWalked(fs, d, f);
    }
    while roots != {}
      invariant roots <= Walk(fs, d)
      invariant counted <= FilesUnder(fs, d)
      invariant forall f | f in FilesUnder(fs, d) :: f in counted <==> Parent(f) !in roots
      invariant total == SizeSum(fs, counted)
      decreases roots
    {
      var root :| root in roots;
      FilesInWalked(fs, d, root);
      var t := FilesSize(fs, FilesIn(fs, root));
      SizeSumUnion(fs, counted, FilesIn(fs, root));
      total := total + t;
      counted := counted + FilesIn(fs, root);
      roots := roots - {root};
    }
    assert counted == FilesUnder(fs, d);
  }

  /** `get_total_size(items)`. */
  method GetTotalSize(fs: FS, items: seq<Path>) returns (total: nat)
    requires WF(fs)
    ensures total == TotalSize(fs, items)
  {
    total := 0;
    var i := 0;
    while i < |items|
      invariant 0 <= i <= |items|
      invariant total == TotalSize(fs, items[..i])
    {
      var item := items[i];
      assert items[..i + 1][..i] == items[..i];
      ItemSizeCases(fs, item);
      if IsFile(fs, item) {
        total := total + fs[item].size;
      } else if IsDir(fs, item) {
        var t := WalkedSize(fs, item);
        total := total + t;
      }
      i := i + 1;
    }
    assert items[..i] == items;
  }
}
