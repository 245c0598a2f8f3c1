/**
  Browsing and picking: `get_items` (termuxport.py:49-59), which lists one directory,
  and `choose_files` (termuxport.py:76-96), which turns the numbers typed at the
  prompt into the selected items.
 */
module Listing {
  import opened Wrappers
  import opened PyStr
  import opened Order
  import opened Fs

  // ---------------------------------------------------------------- get_items

  /** The names `os.listdir(d)` returns. */
  function Children(fs: FS, d: Path): set<Name>
  {
    set p | p in fs && p != [] && Parent(p) == d :: BaseName(p)
  }

  /** `f.startswith('.')`. */
  predicate Hidden(n: Name)
  {
    StartsWith(n, ".")
  }

  /** The visible names in `d` that are directories. */
  function DirNames(fs: FS, d: Path): set<Name>
  {
    set n | n in Children(fs, d) && !Hidden(n) && IsDir(fs, d + [n])
  }

  /** The visible names in `d` that are not directories. */
  function FileNames(fs: FS, d: Path): set<Name>
  {
    set n | n in Children(fs, d) && !Hidden(n) && !IsDir(fs, d + [n])
  }

  /** The `for f in ...` loop of `get_items` on a given sequence of names: hidden names are
      skipped, the rest go to the directories or to the other entries, in sequence order. */
  function ByKind(fs: FS, d: Path, names: seq<Name>): (r: (seq<Path>, seq<Path>))
    ensures forall p | p in r.0 :: p == d + [BaseName(p)] && BaseName(p) in names && !Hidden(BaseName(p)) && IsDir(fs, p)
    ensures forall p | p in r.1 :: p == d + [BaseName(p)] && BaseName(p) in names && !Hidden(BaseName(p)) && !IsDir(fs, p)
    ensures forall n | n in names && !Hidden(n) ::
      (d + [n] in r.0 <==> IsDir(fs, d + [n])) && (d + [n] in r.1 <==> !IsDir(fs, d + [n]))
    decreases |names|
  {
    if names == [] then ([], [])
    else
      var prev := ByKind(fs, d, names[..|names| - 1]);
      var f := names[|names| - 1];
      var p := d + [f];
      assert BaseName(p) == f;
      assert forall n | n in names :: n in names[..|names| - 1] || n == f;
      if Hidden(f) then prev
      else if IsDir(fs, p) then (prev.0 + [p], prev.1)
      else (prev.0, prev.1 + [p])
  }

  /** The paths are in strictly increasing order of their last names. */
  ghost predicate SortedByName(ps: seq<Path>)
  {
    forall i, j | 0 <= i < j < |ps| :: NameLt(BaseName(ps[i]), BaseName(ps[j]))
  }

  lemma AppendSorted(ps: seq<Path>, p: Path)
    requires SortedByName(ps)
    requires forall q | q in ps :: NameLt(BaseName(q), BaseName(p))
    ensures SortedByName(ps + [p])
  {
    var r := ps + [p];
    forall i, j | 0 <= i < j < |r|
      ensures NameLt(BaseName(r[i]), BaseName(r[j]))
    {
      if j == |ps| {
        assert r[i] in ps;
      }
    }
  }

  /** Both lists keep the order of the names they come from. */
  lemma {:induction false} ByKindSorted(fs: FS, d: Path, names: seq<Name>)
    requires StrictlySorted(names)
    ensures SortedByName(ByKind(fs, d, names).0) && SortedByName(ByKind(fs, d, names).1)
    decreases |names|
  {
    if names != [] {
      var init := names[..|names| - 1];
      var f := names[|names| - 1];
      var p := d + [f];
      assert StrictlySorted(init);
      ByKindSorted(fs, d, init);
      var prev := ByKind(fs, d, init);
      assert BaseName(p) == f;
      assert forall x | x in init :: NameLt(x, f);
      if !Hidden(f) {
        if IsDir(fs, p) {
          AppendSorted(prev.0, p);
        } else {
          AppendSorted(prev.1, p);
        }
      }
    }
  }

  /** What `get_items(d)` returns, as a function: the visible directories, then the visible
      other entries of `d`, each in `sorted()` order of their names. */
  ghost function Listed(fs: FS, d: Path): (seq<Path>, seq<Path>)
  {
    ByKind(fs, d, SortedOf(Children(fs, d)))
  }

  /** An entry of `d` is a child of `d` in the map. */
  lemma ChildPath(fs: FS, d: Path, n: Name)
    requires n in Children(fs, d)
    ensures d + [n] in fs
  {
    var p :| p in fs && p != [] && Parent(p) == d && BaseName(p) == n;
    assert p == d + [n];
  }

  /** Everything `get_items(d)` lists is a visible entry of `d`: directories in the first
      list, the rest in the second. */
  lemma ListedSound(fs: FS, d: Path, p: Path)
    requires p in Listed(fs, d).0 || p in Listed(fs, d).1
    ensures p in fs && Parent(p) == d && !Hidden(BaseName(p))
    ensures p in Listed(fs, d).0 ==> IsDir(fs, p)
    ensures p in Listed(fs, d).1 ==> !IsDir(fs, p)
  {
    var n := BaseName(p);
    assert n in SortedOf(Children(fs, d));
    ChildPath(fs, d, n);
    assert Parent(d + [n]) == d;
  }

  /** Every visible entry of `d` is listed, in the list its kind calls for. */
  lemma ListedComplete(fs: FS, d: Path, n: Name)
    requires n in Children(fs, d) && !Hidden(n)
    ensures d + [n] in Listed(fs, d).0 <==> IsDir(fs, d + [n])
    ensures d + [n] in Listed(fs, d).1 <==> !IsDir(fs, d + [n])
  {
    assert n in SortedOf(Children(fs, d));
  }

  /** Each list is in increasing order of name, as `sorted()` leaves it. */
  lemma ListedSorted(fs: FS, d: Path)
    ensures SortedByName(Listed(fs, d).0) && SortedByName(Listed(fs, d).1)
  {
    ByKindSorted(fs, d, SortedOf(Children(fs, d)));
  }

  /** The least name of a set comes first in its sorted order. */
  lemma SortedOfLeast(names: set<Name>, m: Name)
    requires IsLeast(m, names)
    ensures SortedOf(names) == [m] + SortedOf(names - {m})
  {
    var s := SortedOf(names);
    assert s[0] in names;
    if s[0] != m {
      assert m in s;
      var k :| 0 <= k < |s| && s[k] == m;
      assert NameLt(s[0], m);
      LtAsymmetric(s[0], m);
    }
    var t := SortedOf(names - {m});
    forall x
      ensures x in s[1..] <==> x in t
    {
      if x in s[1..] {
        var k :| 1 <= k < |s| && s[k] == x;
        assert NameLt(s[0], x);
        if x == m {
          LtIrreflexive(m);
        }
      }
    }
    SortedUnique(s[1..], t);
    assert s == [s[0]] + s[1..];
  }

  lemma SortStep(s: seq<Name>, rest: set<Name>, names: set<Name>, m: Name)
    requires IsLeast(m, rest) && s + SortedOf(rest) == SortedOf(names)
    ensures (s + [m]) + SortedOf(rest - {m}) == SortedOf(names)
  {
    SortedOfLeast(rest, m);
  }

  /** `sorted(names)`, by taking out the least remaining name each time. */
  method SortNames(names: set<Name>) returns (s: seq<Name>)
    ensures s == SortedOf(names)
  {
    s := [];
    var rest := names;
    while rest != {}
      invariant s + SortedOf(rest) == SortedOf(names)
      decreases rest
    {
      LeastExists(rest);
      var m :| IsLeast(m, rest);
      SortStep(s, rest, names, m);
      s := s + [m];
      rest := rest - {m};
    }
    assert s + SortedOf(rest) == s;
  }

  /** One more name sorted by kind. */
  lemma ByKindNext(fs: FS, d: Path, names: seq<Name>, i: nat)
    requires i < |names|
    ensures var prev := ByKind(fs, d, names[..i]);
            var p := d + [names[i]];
            ByKind(fs, d, names[..i + 1])
            == if Hidden(names[i]) then prev
               else if IsDir(fs, p) then (prev.0 + [p], prev.1)
               else (prev.0, prev.1 + [p])
  {
    assert names[..i + 1][..i] == names[..i];
  }

  /** `get_items(current_path)`. */
  method GetItems(fs: FS, d: Path) returns (dirs: seq<Path>, files: seq<Path>)
    ensures (dirs, files) == Listed(fs, d)
  {
    var names := SortNames(Children(fs, d));
    dirs, files := [], [];
    var i := 0;
    while i < |names|
      invariant 0 <= i <= |names|
      invariant (dirs, files) == ByKind(fs, d, names[..i])
    {
      var f := names[i];
      ByKindNext(fs, d, names, i);
      if !Hidden(f) {
        var fullPath := d + [f];
        if IsDir(fs, fullPath) {
          dirs := dirs + [fullPath];
        } else {
          files := files + [fullPath];
        }
      }
      i := i + 1;
    }
    assert names[..i] == names;
  }

  // ---------------------------------------------------------------- choose_files

  /** Python's `all_items[i]` index rule: `-n <= i < n`, negative indices counting from the end. */
  function PyIndex(i: int, n: nat): (r: Option<nat>)
    ensures r.Some? <==> -(n as int) <= i < n
    ensures r.Some? ==> r.value < n && r.value as int == (if i < 0 then i + n else i)
  {
    if 0 <= i < n then Some(i) else if -(n as int) <= i < 0 then Some(i + n) else None
  }

  /** What one typed token adds to the selection: `all_items[int(c) - 1]`, or nothing where
      `int` or the indexing raises (the bare `except: continue`). */
  function Pick(all: seq<Path>, token: string): (r: seq<Path>)
    ensures |r| <= 1
    ensures r != [] ==> r[0] in all
  {
    match ParseInt(token)
    case None => []
    case Some(v) =>
      match PyIndex(v - 1, |all|)
      case None => []
      case Some(k) => [all[k]]
  }

  /** The items a sequence of tokens selects, in token order, repeats kept. */
  function Chosen(all: seq<Path>, tokens: seq<string>): seq<Path>
  {
    if tokens == [] then [] else Chosen(all, tokens[..|tokens| - 1]) + Pick(all, tokens[|tokens| - 1])
  }

  /** Selecting with two runs of tokens is selecting with each in turn. */
  lemma {:induction false} ChosenAppend(all: seq<Path>, t1: seq<string>, t2: seq<string>)
    ensures Chosen(all, t1 + t2) == Chosen(all, t1) + Chosen(all, t2)
    decreases |t2|
  {
    if t2 == [] {
      assert t1 + t2 == t1;
    } else {
      var t2' := t2[..|t2| - 1];
      assert (t1 + t2)[..|t1 + t2| - 1] == t1 + t2';
      ChosenAppend(all, t1, t2');
    }
  }

  /** Only listed items are selected, at most one per token. */
  lemma {:induction false} ChosenFromListing(all: seq<Path>, tokens: seq<string>)
    ensures |Chosen(all, tokens)| <= |tokens|
    ensures forall x | x in Chosen(all, tokens) :: x in all
    decreases |tokens|
  {
    if tokens != [] {
      ChosenFromListing(all, tokens[..|tokens| - 1]);
    }
  }

  /** A token that is not a number, or whose number is out of range, selects nothing. */
  lemma PickInvalid(all: seq<Path>, token: string)
    requires ParseInt(token).None? || !(-|all| <= ParseInt(token).value - 1 < |all|)
    ensures Pick(all, token) == []
  {
  }

  /** The negative-index quirk: `"-1"` selects the second-to-last item, and `"00"`, which is not
      the literal `"0"` but is the number 0, selects the last one. */
  lemma NegativeTokens(all: seq<Path>)
    requires |all| >= 2
    ensures Pick(all, "-1") == [all[|all| - 2]]
    ensures Pick(all, "00") == [all[|all| - 1]]
  {
    assert DigitGroups("1");
    assert DigitsValue("1") == 1 by {
      assert "1"[..0] == "";
    }
    assert DigitGroups("00");
    assert DigitsValue("00") == 0 by {
      assert "00"[..1] == "0";
      assert "0"[..0] == "";
    }
  }

  /** Each listed item is selected by its own number as shown on screen. */
  lemma PickOwnNumber(all: seq<Path>, k: nat)
    requires k < |all|
    ensures Pick(all, NatToString(k + 1)) == [all[k]]
  {
    ParseIntOfNatToString(k + 1);
  }

  /** One more token of the choice. */
  lemma ChosenNext(all: seq<Path>, choice: seq<string>, j: nat)
    requires j < |choice|
    ensures Chosen(all, choice[..j + 1]) == Chosen(all, choice[..j]) + Pick(all, choice[j])
  {
    assert choice[..j + 1][..j] == choice[..j];
  }

  /** The `for c in choice` loop of `choose_files` (lines 89-94). */
  method SelectTokens(all: seq<Path>, choice: seq<string>) returns (selected: seq<Path>)
    ensures selected == Chosen(all, choice)
  {
    selected := [];
    var j := 0;
    while j < |choice|
      invariant 0 <= j <= |choice|
      invariant selected == Chosen(all, choice[..j])
    {
      ChosenNext(all, choice, j);
      match ParseInt(choice[j]) {
        case Some(v) =>
          var idx := v - 1;
          if -|all| <= idx < |all| {
            selected := selected + [all[if idx < 0 then idx + |all| else idx]];
          }
        case None =>
      }
      j := j + 1;
    }
    assert choice[..j] == choice;
  }

  /** What `choose_files(start)` returns when the lines typed at the prompt are `lines`:
      `None` when input runs out (`input()` raises `EOFError`). */
  ghost function ChooseSpec(fs: FS, cur: Path, lines: seq<string>): Option<seq<Path>>
    decreases |lines|
  {
    if lines == [] then None
    else
      var choice := Words(lines[0]);
      if "0" in choice then
        if Parent(cur) != cur then ChooseSpec(fs, Parent(cur), lines[1..]) else Some([])
      else
        var (dirs, files) := Listed(fs, cur);
        Some(Chosen(dirs + files, choice))
  }

  /** `choose_files(start)`, reading the prompt answers from `lines`. */
  method ChooseFiles(fs: FS, start: Path, lines: seq<string>) returns (result: Option<seq<Path>>)
    requires WF(fs) && IsDir(fs, start)
    ensures result == ChooseSpec(fs, start, lines)
  {
    var cur := start;
    var i := 0;
    while i < |lines|
      invariant 0 <= i <= |lines| && IsDir(fs, cur)
      invariant ChooseSpec(fs, start, lines) == ChooseSpec(fs, cur, lines[i..])
    {
      var dirs, files := GetItems(fs, cur);
      var choice := Words(lines[i]);
      assert lines[i..][0] == lines[i] && lines[i..][1..] == lines[i + 1..];
      if "0" in choice {
        if Parent(cur) != cur {
          cur := Parent(cur);
          i := i + 1;
        } else {
          return Some([]);
        }
      } else {
        var selected := SelectTokens(dirs + files, choice);
        return Some(selected);
      }
    }
    return None;
  }

  /** Whatever is selected is a visible entry of the starting directory or of one of its ancestors. */
  lemma {:induction false} ChosenAreListed(fs: FS, cur: Path, lines: seq<string>)
    requires ChooseSpec(fs, cur, lines).Some?
    ensures forall x | x in ChooseSpec(fs, cur, lines).value ::
      x in fs && Parent(x) <= cur && !Hidden(BaseName(x))
    decreases |lines|
  {
    var choice := Words(lines[0]);
    if "0" in choice {
      if Parent(cur) != cur {
        ChosenAreListed(fs, Parent(cur), lines[1..]);
        assert Parent(cur) <= cur;
      }
    } else {
      var r := Listed(fs, cur);
      ChosenFromListing(r.0 + r.1, choice);
      forall x | x in Chosen(r.0 + r.1, choice)
        ensures x in fs && Parent(x) <= cur && !Hidden(BaseName(x))
      {
        ListedSound(fs, cur, x);
      }
    }
  }

  /** A `"0"` at the root ends the selection with nothing selected, whatever else was typed. */
  lemma ZeroAtRoot(fs: FS, lines: seq<string>)
    requires lines != [] && "0" in Words(lines[0])
    ensures ChooseSpec(fs, [], lines) == Some([])
  {
  }
}
