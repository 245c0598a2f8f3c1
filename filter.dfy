/**
  `filter_exclude` (termuxport.py:174-177): drop the selected items whose name ends in
  one of the extensions typed at the prompt.
 */
module Filter {
  import opened PyStr
  import opened Fs

  /** `any(i.name.endswith(f".{e}") for e in exts)`. */
  predicate Excluded(item: Path, exts: seq<string>)
  {
    exists k | 0 <= k < |exts| :: EndsWith(BaseName(item), "." + exts[k])
  }

  /** The list comprehension: the items that are not excluded, in their original order. */
  function Kept(items: seq<Path>, exts: seq<string>): (r: seq<Path>)
    ensures |r| <= |items|
  {
    if items == [] then []
    else
      var last := items[|items| - 1];
      Kept(items[..|items| - 1], exts) + (if Excluded(last, exts) then [] else [last])
  }

  /** Every item the answer does not exclude is kept as often as it was selected, and every
      excluded one is gone. */
  lemma {:induction false} KeptCounts(items: seq<Path>, exts: seq<string>, x: Path)
    ensures multiset(Kept(items, exts))[x] == if Excluded(x, exts) then 0 else multiset(items)[x]
    decreases |items|
  {
    if items != [] {
      var init := items[..|items| - 1];
      var last := items[|items| - 1];
      assert items == init + [last];
      KeptCounts(init, exts, x);
    }
  }

  /** `filter_exclude(items)`, with the answer typed at the prompt given as `answer`. */
  function FilterExclude(items: seq<Path>, answer: string): seq<Path>
  {
    Kept(items, Words(answer))
  }

  /** Filtering a concatenation filters each part. */
  lemma {:induction false} KeptAppend(a: seq<Path>, b: seq<Path>, exts: seq<string>)
    ensures Kept(a + b, exts) == Kept(a, exts) + Kept(b, exts)
    decreases |b|
  {
    if b == [] {
      assert a + b == a;
    } else {
      var b' := b[..|b| - 1];
      assert (a + b)[..|a + b| - 1] == a + b';
      KeptAppend(a, b', exts);
    }
  }

  /** An item that is kept stays where it was relative to the other kept items:
      filtering `a + [x] + b` keeps `x` between what it keeps of `a` and of `b`. */
  lemma KeptKeepsPlace(a: seq<Path>, x: Path, b: seq<Path>, exts: seq<string>)
    requires !Excluded(x, exts)
    ensures Kept(a + [x] + b, exts) == Kept(a, exts) + [x] + Kept(b, exts)
  {
    KeptAppend(a + [x], b, exts);
    KeptAppend(a, [x], exts);
    assert [x][..0] == [];
  }

  /** Filtering twice with the same extensions is filtering once. */
  lemma {:induction false} KeptIdempotent(items: seq<Path>, exts: seq<string>)
    ensures Kept(Kept(items, exts), exts) == Kept(items, exts)
    decreases |items|
  {
    if items != [] {
      var init := items[..|items| - 1];
      var last := items[|items| - 1];
      KeptIdempotent(init, exts);
      var tail := if Excluded(last, exts) then [] else [last];
      KeptAppend(Kept(init, exts), tail, exts);
      if tail != [] {
        assert tail[..0] == [];
      }
    }
  }

  /** An empty answer excludes nothing. */
  lemma {:induction false} KeptNothing(items: seq<Path>)
    ensures Kept(items, []) == items
    decreases |items|
  {
    if items != [] {
      KeptNothing(items[..|items| - 1]);
    }
  }

  /** The extension test is on the whole suffix after a dot: `mp4` drops `a.mp4` and `b.tar.mp4`
      but keeps `mp4` itself and `a_mp4`. */
  lemma ExcludedExamples()
    ensures Excluded(["a.mp4"], ["mp4"]) && Excluded(["b.tar.mp4"], ["jpg", "mp4"])
    ensures !Excluded(["mp4"], ["mp4"]) && !Excluded(["a_mp4"], ["mp4"])
  {
    assert EndsWith(BaseName(["a.mp4"]), "." + ["mp4"][0]);
    assert EndsWith(BaseName(["b.tar.mp4"]), "." + ["jpg", "mp4"][1]);
  }
}
