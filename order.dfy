/**
  The order in which Python's `sorted()` puts strings: lexicographic comparison of
  code points, a proper prefix coming first.
 */
module Order {

  /** Python's `a < b` on `str`. */
  predicate NameLt(a: string, b: string)
    decreases |a|
  {
    |b| > 0 && (|a| == 0 || a[0] < b[0] || (a[0] == b[0] && NameLt(a[1..], b[1..])))
  }

  lemma {:induction false} LtIrreflexive(a: string)
    ensures !NameLt(a, a)
    decreases |a|
  {
    if |a| > 0 {
      LtIrreflexive(a[1..]);
    }
  }

  lemma {:induction false} LtTransitive(a: string, b: string, c: string)
    requires NameLt(a, b) && NameLt(b, c)
    ensures NameLt(a, c)
    decreases |a|
  {
    if |a| > 0 && a[0] == b[0] && b[0] == c[0] {
      LtTransitive(a[1..], b[1..], c[1..]);
    }
  }

  /** Two different strings are always ordered one way or the other. */
  lemma {:induction false} LtTotal(a: string, b: string)
    requires a != b
    ensures NameLt(a, b) || NameLt(b, a)
    decreases |a|
  {
    if |a| > 0 && |b| > 0 && a[0] == b[0] {
      assert a == [a[0]] + a[1..] && b == [b[0]] + b[1..];
      LtTotal(a[1..], b[1..]);
    }
  }

  lemma LtAsymmetric(a: string, b: string)
    requires NameLt(a, b)
    ensures !NameLt(b, a)
  {
    if NameLt(b, a) {
      LtTransitive(a, b, a);
      LtIrreflexive(a);
    }
  }

  /** `m` is the least element of `names`. */
  predicate IsLeast(m: string, names: set<string>)
  {
    m in names && forall x | x in names && x != m :: NameLt(m, x)
  }

  /** Every finite non-empty set of strings has a least element. */
  lemma {:induction false} LeastExists(names: set<string>)
    requires names != {}
    ensures exists m :: IsLeast(m, names)
    decreases |names|
  {
    var x :| x in names;
    var others := names - {x};
    if others == {} {
      assert names == {x};
      assert IsLeast(x, names);
    } else {
      LeastExists(others);
      var m :| IsLeast(m, others);
      if NameLt(x, m) {
        forall y | y in names && y != x
          ensures NameLt(x, y)
        {
          if y != m {
            LtTransitive(x, m, y);
          }
        }
        assert IsLeast(x, names);
      } else {
        LtTotal(x, m);
        assert IsLeast(m, names);
      }
    }
  }

  /** Strictly increasing: sorted, and no name twice. */
  ghost predicate StrictlySorted(s: seq<string>)
  {
    forall i, j | 0 <= i < j < |s| :: NameLt(s[i], s[j])
  }

  /** The elements of a finite set of strings, in `sorted()` order. */
  ghost function SortedOf(names: set<string>): (r: seq<string>)
    ensures StrictlySorted(r)
    ensures forall x :: x in r <==> x in names
    ensures |r| == |names|
    decreases |names|
  {
    if names == {} then []
    else
      LeastExists(names);
      var m :| IsLeast(m, names);
      var rest := SortedOf(names - {m});
      assert forall x | x in rest :: NameLt(m, x);
      [m] + rest
  }

  /** A strictly sorted sequence is determined by its set of elements. */
  lemma {:induction false} SortedUnique(a: seq<string>, b: seq<string>)
    requires StrictlySorted(a) && StrictlySorted(b)
    requires forall x :: x in a <==> x in b
    ensures a == b
    decreases |a|
  {
    if b != [] {
      assert b[0] in a;
    }
    if a != [] {
      assert a[0] in b;
      if a[0] != b[0] {
        assert a[0] in b;
        var j :| 0 <= j < |b| && b[j] == a[0];
        assert b[0] in a;
        var i :| 0 <= i < |a| && a[i] == b[0];
        assert NameLt(b[0], a[0]) by {
          assert j > 0;
        }
        assert NameLt(a[0], b[0]) by {
          assert i > 0;
        }
        LtAsymmetric(a[0], b[0]);
      }
      forall x
        ensures x in a[1..] <==> x in b[1..]
      {
        if x in a[1..] {
          var i :| 1 <= i < |a| && a[i] == x;
          assert NameLt(a[0], x);
          assert x != a[0] by {
            if x == a[0] {
              LtIrreflexive(x);
            }
          }
          assert x in b;
        }
        if x in b[1..] {
          var i :| 1 <= i < |b| && b[i] == x;
          assert NameLt(b[0], x);
          assert x != b[0] by {
            if x == b[0] {
              LtIrreflexive(x);
            }
          }
          assert x in a;
        }
      }
      SortedUnique(a[1..], b[1..]);
      assert a == [a[0]] + a[1..] && b == [b[0]] + b[1..];
    }
  }
}
