/**
  The few Python `str` operations the program relies on: `strip()`, `strip(chars)`,
  `split()`, `split(sep)`, `t in s`, `endswith`, `startswith` and `int(s)`.
  Strings are sequences of Unicode scalar values, as Python's `str` is.
 */
module PyStr {
  import opened Wrappers

  /** The characters for which Python's `str.isspace()` holds. */
  predicate IsSpace(c: char)
  {
    '\t' <= c <= '\r' || '\U{1C}' <= c <= ' ' || c == '\U{85}' || c == '\U{A0}' || c == '\U{1680}' ||
    '\U{2000}' <= c <= '\U{200A}' || c == '\U{2028}' || c == '\U{2029}' || c == '\U{202F}' ||
    c == '\U{205F}' || c == '\U{3000}'
  }

  // ---------------------------------------------------------------- strip

  /** The length of the longest prefix of `s` whose characters satisfy `drop`. */
  function Leading(s: string, drop: char -> bool): (n: nat)
    ensures n <= |s|
    ensures forall k | 0 <= k < n :: drop(s[k])
    ensures n == |s| || !drop(s[n])
  {
    if s != [] && drop(s[0]) then 1 + Leading(s[1..], drop) else 0
  }

  /** The length of the longest suffix of `s` whose characters satisfy `drop`. */
  function Trailing(s: string, drop: char -> bool): (n: nat)
    ensures n <= |s|
    ensures forall k | |s| - n <= k < |s| :: drop(s[k])
    ensures n == |s| || !drop(s[|s| - n - 1])
  {
    if s != [] && drop(s[|s| - 1]) then 1 + Trailing(s[..|s| - 1], drop) else 0
  }

  /** `s` with its longest prefix of characters satisfying `drop` removed. */
  function TrimStart(s: string, drop: char -> bool): string
  {
    s[Leading(s, drop)..]
  }

  /** `s` with its longest suffix of characters satisfying `drop` removed. */
  function TrimEnd(s: string, drop: char -> bool): string
  {
    s[..|s| - Trailing(s, drop)]
  }

  /** Python's `s.strip(chars)`, the stripped characters given as the predicate `drop`. */
  function StripChars(s: string, drop: char -> bool): string
  {
    TrimEnd(TrimStart(s, drop), drop)
  }

  /** Python's `s.strip()`. */
  function Strip(s: string): string
  {
    StripChars(s, IsSpace)
  }

  /** Stripping never removes a character that is not one of those stripped. */
  lemma StripKeeps(s: string, drop: char -> bool, c: char)
    requires c in s && !drop(c)
    ensures c in StripChars(s, drop)
  {
    var k :| 0 <= k < |s| && s[k] == c;
    var n := Leading(s, drop);
    assert n <= k;
    var t := TrimStart(s, drop);
    assert t[k - n] == c;
    var m := Trailing(t, drop);
    assert k - n < |t| - m;
    assert TrimEnd(t, drop)[k - n] == c;
  }

  /** Stripping removes exactly the stripped characters around a core that starts and ends
      with a kept one. */
  lemma StripAround(a: string, s: string, b: string, drop: char -> bool)
    requires forall k | 0 <= k < |a| :: drop(a[k])
    requires forall k | 0 <= k < |b| :: drop(b[k])
    requires s != [] && !drop(s[0]) && !drop(s[|s| - 1])
    ensures StripChars(a + s + b, drop) == s
  {
    var w := a + s + b;
    assert w[|a|] == s[0];
    assert forall k | 0 <= k < |a| :: w[k] == a[k];
    var n := Leading(w, drop);
    assert n == |a|;
    var t := TrimStart(w, drop);
    assert t == s + b;
    assert t[|s| - 1] == s[|s| - 1];
    assert forall k | |s| <= k < |t| :: t[k] == b[k - |s|];
    assert Trailing(t, drop) == |b|;
    assert TrimEnd(t, drop) == s;
  }

  // ---------------------------------------------------------------- split()

  /** Length of the run of non-whitespace characters at the front of `s`. */
  function WordLen(s: string): (n: nat)
    ensures n <= |s|
    ensures forall k | 0 <= k < n :: !IsSpace(s[k])
    ensures n == |s| || IsSpace(s[n])
  {
    if s == [] || IsSpace(s[0]) then 0 else 1 + WordLen(s[1..])
  }

  predicate IsWord(w: string)
  {
    w != [] && forall j | 0 <= j < |w| :: !IsSpace(w[j])
  }

  /** Python's `s.split()`: the maximal runs of non-whitespace characters, in order. */
  function Words(s: string): (r: seq<string>)
    ensures forall k | 0 <= k < |r| :: IsWord(r[k])
    decreases |s|
  {
    var t := TrimStart(s, IsSpace);
    if t == [] then []
    else
      var n := WordLen(t);
      assert IsWord(t[..n]);
      [t[..n]] + Words(t[n..])
  }

  /** The words joined back with single spaces. */
  function Unwords(ws: seq<string>): string
  {
    if ws == [] then "" else if |ws| == 1 then ws[0] else ws[0] + " " + Unwords(ws[1..])
  }

  lemma {:induction false} WordsOfWordThen(w: string, rest: string)
    requires IsWord(w)
    requires rest == [] || IsSpace(rest[0])
    ensures Words(w + rest) == [w] + Words(rest)
  {
    var s := w + rest;
    assert TrimStart(s, IsSpace) == s;
    WordLenOfWord(w, rest);
    assert s[..|w|] == w && s[|w|..] == rest;
  }

  lemma {:induction false} WordLenOfWord(w: string, rest: string)
    requires forall j | 0 <= j < |w| :: !IsSpace(w[j])
    requires rest == [] || IsSpace(rest[0])
    ensures WordLen(w + rest) == |w|
    decreases |w|
  {
    if w != [] {
      assert (w + rest)[1..] == w[1..] + rest;
      WordLenOfWord(w[1..], rest);
    } else {
      assert w + rest == rest;
    }
  }

  lemma SpaceThenWords(s: string)
    ensures Words(" " + s) == Words(s)
  {
    assert (" " + s)[1..] == s;
    assert TrimStart(" " + s, IsSpace) == TrimStart(s, IsSpace);
  }

  lemma WordsOfWordSpace(w: string, tail: string)
    requires IsWord(w)
    ensures Words(w + " " + tail) == [w] + Words(tail)
  {
    var rest := " " + tail;
    assert w + " " + tail == w + rest;
    WordsOfWordThen(w, rest);
    SpaceThenWords(tail);
  }

  lemma WordsOfWord(w: string)
    requires IsWord(w)
    ensures Words(w) == [w]
  {
    assert w + "" == w;
    WordsOfWordThen(w, "");
    assert Words("") == [];
  }

  /** Splitting words joined by single spaces gives the words back. */
  lemma {:induction false} WordsUnwords(ws: seq<string>)
    requires forall k | 0 <= k < |ws| :: IsWord(ws[k])
    ensures Words(Unwords(ws)) == ws
  {
    if ws == [] {
      assert Unwords(ws) == "";
    } else if |ws| == 1 {
      WordsOfWord(ws[0]);
    } else {
      var rest := ws[1..];
      assert Unwords(ws) == ws[0] + " " + Unwords(rest);
      WordsOfWordSpace(ws[0], Unwords(rest));
      WordsUnwords(rest);
      assert ws == [ws[0]] + rest;
    }
  }

  // ---------------------------------------------------------------- split(sep)

  /** Index of the first `c` in `s`, or `|s|` when there is none. */
  function IndexOf(s: string, c: char): (i: nat)
    ensures i <= |s|
    ensures i < |s| ==> s[i] == c
    ensures forall k | 0 <= k < i :: s[k] != c
  {
    if s == [] then 0 else if s[0] == c then 0 else 1 + IndexOf(s[1..], c)
  }

  /** Python's `s.split(sep)` for a one-character separator: the pieces between separators. */
  function SplitOn(s: string, sep: char): (r: seq<string>)
    ensures |r| >= 1
    ensures forall k | 0 <= k < |r| :: sep !in r[k]
    ensures sep in s <==> |r| >= 2
    decreases |s|
  {
    var i := IndexOf(s, sep);
    if i == |s| then [s] else [s[..i]] + SplitOn(s[i + 1..], sep)
  }

  /** Python's `sep.join(parts)`. */
  function JoinOn(parts: seq<string>, sep: char): string
  {
    if parts == [] then "" else if |parts| == 1 then parts[0] else parts[0] + [sep] + JoinOn(parts[1..], sep)
  }

  /** Splitting and joining on the same separator gives the string back. */
  lemma {:induction false} SplitJoin(s: string, sep: char)
    ensures JoinOn(SplitOn(s, sep), sep) == s
    decreases |s|
  {
    var i := IndexOf(s, sep);
    if i < |s| {
      SplitJoin(s[i + 1..], sep);
      assert s == s[..i] + [sep] + s[i + 1..];
    }
  }

  /** The second field of `s.split(sep)` is the text between the first and second separator. */
  lemma SecondField(k: string, v: string, rest: string, sep: char)
    requires sep !in k && sep !in v
    requires rest == [] || rest[0] == sep
    ensures |SplitOn(k + [sep] + v + rest, sep)| >= 2
    ensures SplitOn(k + [sep] + v + rest, sep)[1] == v
  {
    assert k + [sep] + v + rest == k + [sep] + (v + rest);
    SplitAfterFirst(k, v + rest, sep);
    FirstField(v, rest, sep);
  }

  /** Splitting at a first separator after `k`. */
  lemma SplitAfterFirst(k: string, t: string, sep: char)
    requires sep !in k
    ensures SplitOn(k + [sep] + t, sep) == [k] + SplitOn(t, sep)
  {
    var s := k + [sep] + t;
    IndexOfFirst(s, sep, |k|);
    assert s[..|k|] == k && s[|k| + 1..] == t;
  }

  /** The first field of `v + rest` is `v` when `rest` is empty or starts with the separator. */
  lemma FirstField(v: string, rest: string, sep: char)
    requires sep !in v && (rest == [] || rest[0] == sep)
    ensures SplitOn(v + rest, sep)[0] == v
  {
    var t := v + rest;
    IndexOfFirst(t, sep, |v|);
    assert t[..|v|] == v;
    if rest == [] {
      assert t == v;
    }
  }

  lemma IndexOfFirst(s: string, c: char, i: nat)
    requires i <= |s| && (i < |s| ==> s[i] == c)
    requires forall j | 0 <= j < i :: s[j] != c
    ensures IndexOf(s, c) == i
  {
  }

  // ---------------------------------------------------------------- in, startswith, endswith

  predicate StartsWith(s: string, p: string)
  {
    |p| <= |s| && s[..|p|] == p
  }

  predicate EndsWith(s: string, p: string)
  {
    |p| <= |s| && s[|s| - |p|..] == p
  }

  /** `t` occurs in `s` starting at index `i`. */
  predicate OccursAt(s: string, t: string, i: int)
  {
    0 <= i <= |s| - |t| && s[i..i + |t|] == t
  }

  /** Python's `t in s`: `t` starts `s` or occurs in its tail. */
  predicate Contains(s: string, t: string)
    decreases |s|
  {
    StartsWith(s, t) || (s != [] && Contains(s[1..], t))
  }

  /** `t in s` holds exactly when `t` occurs in `s` at some index. */
  lemma {:induction false} ContainsOccurs(s: string, t: string)
    ensures Contains(s, t) <==> exists i :: OccursAt(s, t, i)
    decreases |s|
  {
    if StartsWith(s, t) {
      assert OccursAt(s, t, 0);
    } else if s == [] {
      assert forall i :: !OccursAt(s, t, i);
    } else {
      ContainsOccurs(s[1..], t);
      if Contains(s[1..], t) {
        var i :| OccursAt(s[1..], t, i);
        assert s[1..][i..i + |t|] == s[i + 1..i + 1 + |t|];
        assert OccursAt(s, t, i + 1);
      }
      if exists i :: OccursAt(s, t, i) {
        var i :| OccursAt(s, t, i);
        if i != 0 {
          assert s[1..][i - 1..i - 1 + |t|] == s[i..i + |t|];
          assert OccursAt(s[1..], t, i - 1);
        }
      }
    }
  }

  /** Each character of `t` is a character of any string that contains `t`. */
  lemma ContainsChars(s: string, t: string, j: nat)
    requires Contains(s, t) && j < |t|
    ensures t[j] in s
  {
    ContainsOccurs(s, t);
    var i :| OccursAt(s, t, i);
    assert s[i..i + |t|][j] == t[j];
  }

  // ---------------------------------------------------------------- int()

  predicate IsDigit(c: char)
  {
    '0' <= c <= '9'
  }

  /** The digit part that Python's `int()` accepts: ASCII digits, single underscores only between two digits. */
  predicate DigitGroups(s: string)
  {
    s != [] &&
    forall k | 0 <= k < |s| ::
      IsDigit(s[k]) || (0 < k < |s| - 1 && s[k] == '_' && IsDigit(s[k - 1]) && IsDigit(s[k + 1]))
  }

  /** The number the digits of `s` spell, underscores ignored. */
  function DigitsValue(s: string): nat
  {
    if s == [] then 0
    else if IsDigit(s[|s| - 1]) then 10 * DigitsValue(s[..|s| - 1]) + (s[|s| - 1] as int - '0' as int)
    else DigitsValue(s[..|s| - 1])
  }

  /** Python's `int(s)` for a token without surrounding whitespace; `None` where `int` raises `ValueError`. */
  function ParseInt(s: string): Option<int>
  {
    if s != [] && (s[0] == '+' || s[0] == '-') then
      if DigitGroups(s[1..]) then
        var v: int := DigitsValue(s[1..]);
        Some(if s[0] == '-' then -v else v)
      else None
    else if DigitGroups(s) then Some(DigitsValue(s))
    else None
  }

  function DigitChar(d: nat): (c: char)
    requires d < 10
    ensures IsDigit(c) && c as int - '0' as int == d
  {
    (d + '0' as int) as char
  }

  /** Python's `str(n)` for a natural number: its decimal digits. */
  function NatToString(n: nat): (r: string)
    ensures r != [] && forall k | 0 <= k < |r| :: IsDigit(r[k])
  {
    if n < 10 then [DigitChar(n)] else NatToString(n / 10) + [DigitChar(n % 10)]
  }

  lemma {:induction false} DigitsValueOfNatToString(n: nat)
    ensures DigitsValue(NatToString(n)) == n
  {
    var s := NatToString(n);
    if n < 10 {
      assert s[..|s| - 1] == [];
    } else {
      assert s[..|s| - 1] == NatToString(n / 10);
      DigitsValueOfNatToString(n / 10);
    }
  }

  /** `int(str(n)) == n`. */
  lemma ParseIntOfNatToString(n: nat)
    ensures ParseInt(NatToString(n)) == Some(n)
  {
    var s := NatToString(n);
    assert DigitGroups(s);
    assert !(s[0] == '+' || s[0] == '-');
    DigitsValueOfNatToString(n);
  }
}
