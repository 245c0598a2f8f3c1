/**
  The settings read at start-up (termuxport.py:7-19): four defaults, each replaced by the
  value of any line of `termuxport.conf` that mentions its key followed by `=`.
 */
module Config {
  import opened Wrappers
  import opened PyStr

  /** The settings. `dest` is the text of `DEFAULT_DEST` as read from the file; `None` stands
      for the built-in `~/TermuXport/export`. */
  datatype Settings = Settings(dest: Option<string>, notify: bool, creator: string, version: string)

  /** The module-level defaults of lines 8-11. */
  const Defaults := Settings(None, true, "RIDHIN V", "v4.4")

  datatype Key = DestKey | NotifyKey | CreatorKey | VersionKey

  /** The text a line must contain to set `k`: its name and `=`. */
  function KeyText(k: Key): string
  {
    match k
    case DestKey => "DEFAULT_DEST="
    case NotifyKey => "ENABLE_NOTIFY="
    case CreatorKey => "CREATOR="
    case VersionKey => "VERSION="
  }

  /** One setting, whichever its type. */
  datatype Value = DestValue(dest: Option<string>) | FlagValue(on: bool) | TextValue(text: string)

  function Get(c: Settings, k: Key): Value
  {
    match k
    case DestKey => DestValue(c.dest)
    case NotifyKey => FlagValue(c.notify)
    case CreatorKey => TextValue(c.creator)
    case VersionKey => TextValue(c.version)
  }

  /** `"KEY=" in line`. */
  predicate Mentions(line: string, k: Key)
  {
    Contains(line, KeyText(k))
  }

  /** `line.strip().split("=")[1]`: the text between the first and the second `=`. */
  function Field(line: string): (v: string)
    requires '=' in line
    ensures '=' !in v
  {
    StripKeeps(line, IsSpace, '=');
    SplitOn(Strip(line), '=')[1]
  }

  /** `.strip('"')`. */
  function Unquote(s: string): string
  {
    StripChars(s, c => c == '"')
  }

  /** The text a line gives a string setting: `line.strip().split("=")[1].strip('"')`. */
  function TextOf(line: string): string
    requires '=' in line
  {
    Unquote(Field(line))
  }

  /** The flag a line gives `ENABLE_NOTIFY`: `line.strip().split("=")[1].strip() == "1"`;
      quotes are not removed from it. */
  predicate FlagOf(line: string)
    requires '=' in line
  {
    Strip(Field(line)) == "1"
  }

  /** A line that mentions a key holds an `=`. */
  lemma MentionHasEquals(line: string, k: Key)
    requires Mentions(line, k)
    ensures '=' in line
  {
    ContainsChars(line, KeyText(k), |KeyText(k)| - 1);
  }

  /** The value a line holding an `=` gives the setting `k`. */
  function Parsed(k: Key, line: string): Value
    requires '=' in line
  {
    match k
    case DestKey => DestValue(Some(TextOf(line)))
    case NotifyKey => FlagValue(FlagOf(line))
    case CreatorKey => TextValue(TextOf(line))
    case VersionKey => TextValue(TextOf(line))
  }

  /** The assignment in one of the four `if` statements: `k` takes the line's value, the
      other settings stay. */
  function Assign(c: Settings, k: Key, line: string): (r: Settings)
    requires '=' in line
    ensures Get(r, k) == Parsed(k, line)
    ensures forall j | j != k :: Get(r, j) == Get(c, j)
  {
    match k
    case DestKey => c.(dest := Some(TextOf(line)))
    case NotifyKey => c.(notify := FlagOf(line))
    case CreatorKey => c.(creator := TextOf(line))
    case VersionKey => c.(version := TextOf(line))
  }

  /** One of the four `if` statements of the loop body. */
  function ApplyKey(c: Settings, k: Key, line: string): (r: Settings)
  {
    if Mentions(line, k) then
      MentionHasEquals(line, k);
      Assign(c, k, line)
    else c
  }

  /** The loop body of lines 16-19: the four keys tried in turn on the same line. */
  function ApplyLine(c: Settings, line: string): Settings
  {
    ApplyKey(ApplyKey(ApplyKey(ApplyKey(c, DestKey, line), NotifyKey, line), CreatorKey, line), VersionKey, line)
  }

  lemma ApplyKeyGet(c: Settings, k: Key, line: string)
    ensures Mentions(line, k) ==> '=' in line && Get(ApplyKey(c, k, line), k) == Parsed(k, line)
    ensures !Mentions(line, k) ==> ApplyKey(c, k, line) == c
    ensures forall j | j != k :: Get(ApplyKey(c, k, line), j) == Get(c, j)
  {
    if Mentions(line, k) {
      MentionHasEquals(line, k);
    }
  }

  /** The keys do not interfere: a line sets exactly the settings whose keys it mentions,
      each to the value it gives. */
  lemma ApplyLineGet(c: Settings, line: string, k: Key)
    ensures Mentions(line, k) ==> '=' in line && Get(ApplyLine(c, line), k) == Parsed(k, line)
    ensures !Mentions(line, k) ==> Get(ApplyLine(c, line), k) == Get(c, k)
  {
    var c1 := ApplyKey(c, DestKey, line);
    var c2 := ApplyKey(c1, NotifyKey, line);
    var c3 := ApplyKey(c2, CreatorKey, line);
    ApplyKeyGet(c, DestKey, line);
    ApplyKeyGet(c1, NotifyKey, line);
    ApplyKeyGet(c2, CreatorKey, line);
    ApplyKeyGet(c3, VersionKey, line);
  }

  /** The lines of the file applied in order. */
  function ApplyLines(c: Settings, lines: seq<string>): Settings
  {
    if lines == [] then c else ApplyLine(ApplyLines(c, lines[..|lines| - 1]), lines[|lines| - 1])
  }

  /** One line of `termuxport.conf` after another (lines 15-19). */
  lemma ApplyLinesNext(c: Settings, lines: seq<string>, i: nat)
    requires i < |lines|
    ensures ApplyLines(c, lines[..i + 1]) == ApplyLine(ApplyLines(c, lines[..i]), lines[i])
  {
    assert lines[..i + 1][..i] == lines[..i];
  }

  /** The body of the loop of lines 16-19: the four `if` statements on one line. */
  method ReadLine(c0: Settings, line: string) returns (c: Settings)
    ensures c == ApplyLine(c0, line)
  {
    c := c0;
    if Mentions(line, DestKey) {
      MentionHasEquals(line, DestKey);
      c := c.(dest := Some(TextOf(line)));
    }
    ghost var c1 := c;
    if Mentions(line, NotifyKey) {
      MentionHasEquals(line, NotifyKey);
      c := c.(notify := FlagOf(line));
    }
    assert c == ApplyKey(c1, NotifyKey, line);
    ghost var c2 := c;
    if Mentions(line, CreatorKey) {
      MentionHasEquals(line, CreatorKey);
      c := c.(creator := TextOf(line));
    }
    assert c == ApplyKey(c2, CreatorKey, line);
    ghost var c3 := c;
    if Mentions(line, VersionKey) {
      MentionHasEquals(line, VersionKey);
      c := c.(version := TextOf(line));
    }
    assert c == ApplyKey(c3, VersionKey, line);
  }

  /** The settings after start-up, `conf` holding the lines of `termuxport.conf` when it exists. */
  method LoadConfig(conf: Option<seq<string>>) returns (c: Settings)
    ensures c == if conf.None? then Defaults else ApplyLines(Defaults, conf.value)
  {
    c := Defaults;
    if conf.Some? {
      var lines := conf.value;
      var i := 0;
      assert lines[..0] == [];
      while i < |lines|
        invariant 0 <= i <= |lines|
        invariant c == ApplyLines(Defaults, lines[..i])
      {
        ApplyLinesNext(Defaults, lines, i);
        c := ReadLine(c, lines[i]);
        i := i + 1;
      }
      assert lines[..i] == lines;
    }
  }

  /** A last line that does not mention a key leaves that key's setting alone. */
  lemma LastLineSkipped(c: Settings, lines: seq<string>, k: Key)
    requires lines != [] && !Mentions(lines[|lines| - 1], k)
    ensures Get(ApplyLines(c, lines), k) == Get(ApplyLines(c, lines[..|lines| - 1]), k)
  {
    ApplyLineGet(ApplyLines(c, lines[..|lines| - 1]), lines[|lines| - 1], k);
  }

  /** The last line that mentions a key decides its setting. */
  lemma {:induction false} LastMentionWins(c: Settings, lines: seq<string>, k: Key, i: nat)
    requires i < |lines| && Mentions(lines[i], k)
    requires forall j | i < j < |lines| :: !Mentions(lines[j], k)
    ensures '=' in lines[i] && Get(ApplyLines(c, lines), k) == Parsed(k, lines[i])
    decreases |lines|
  {
    var n := |lines| - 1;
    var init := lines[..n];
    if i < n {
      assert !Mentions(lines[n], k);
      LastLineSkipped(c, lines, k);
      assert init[i] == lines[i];
      forall j | i < j < |init|
        ensures !Mentions(init[j], k)
      {
        assert init[j] == lines[j];
      }
      LastMentionWins(c, init, k, i);
    } else {
      LastLineDecides(c, lines, k);
    }
  }

  /** A last line that mentions a key decides its setting. */
  lemma LastLineDecides(c: Settings, lines: seq<string>, k: Key)
    requires lines != [] && Mentions(lines[|lines| - 1], k)
    ensures '=' in lines[|lines| - 1] && Get(ApplyLines(c, lines), k) == Parsed(k, lines[|lines| - 1])
  {
    ApplyLineGet(ApplyLines(c, lines[..|lines| - 1]), lines[|lines| - 1], k);
  }

  /** A key no line mentions keeps its previous setting. */
  lemma {:induction false} UnmentionedKept(c: Settings, lines: seq<string>, k: Key)
    requires forall j | 0 <= j < |lines| :: !Mentions(lines[j], k)
    ensures Get(ApplyLines(c, lines), k) == Get(c, k)
    decreases |lines|
  {
    if lines != [] {
      var init := lines[..|lines| - 1];
      LastLineSkipped(c, lines, k);
      assert forall j | 0 <= j < |init| :: init[j] == lines[j];
      UnmentionedKept(c, init, k);
    }
  }

  /** The line a user writes for a text setting, `KEY="value"` and its newline, gives back
      `value` when it holds no `=` and does not start or end with a quote. */
  lemma QuotedLineRoundTrip(k: Key, v: string)
    requires k != NotifyKey
    requires v != [] && '=' !in v && v[0] != '"' && v[|v| - 1] != '"'
    ensures var line := KeyText(k) + "\"" + v + "\"" + "\n";
      Mentions(line, k) && '=' in line &&
      Parsed(k, line) == if k == DestKey then DestValue(Some(v)) else TextValue(v)
  {
    var quoted := "\"" + v + "\"";
    var line := KeyText(k) + quoted + "\n";
    assert KeyText(k) + "\"" + v + "\"" + "\n" == line;
    LineField(k, quoted);
    assert Unquote(quoted) == v by {
      StripAround("\"", v, "\"", c => c == '"');
    }
  }

  /** The field of a line `KEY=value` and its newline is `value`, when `value` holds no `=`
      and neither starts nor ends with whitespace. */
  lemma LineField(k: Key, v: string)
    requires v != [] && '=' !in v && !IsSpace(v[0]) && !IsSpace(v[|v| - 1])
    ensures Mentions(KeyText(k) + v + "\n", k)
    ensures '=' in KeyText(k) + v + "\n" && Field(KeyText(k) + v + "\n") == v
  {
    var key := KeyText(k);
    var name := key[..|key| - 1];
    assert key == name + "=" && name != [] && '=' !in name && !IsSpace(name[0]);
    KeyLineField(name, v);
    assert name + "=" + v + "\n" == KeyText(k) + v + "\n";
  }

  lemma KeyLineField(name: string, v: string)
    requires name != [] && '=' !in name && !IsSpace(name[0])
    requires v != [] && '=' !in v && !IsSpace(v[0]) && !IsSpace(v[|v| - 1])
    ensures StartsWith(name + "=" + v + "\n", name + "=")
    ensures '=' in name + "=" + v + "\n" && Field(name + "=" + v + "\n") == v
  {
    var core := name + "=" + v;
    var line := core + "\n";
    assert line[..|name| + 1] == name + "=";
    assert line[|name|] == '=';
    assert Strip(line) == core by {
      StripAround([], core, "\n", IsSpace);
      assert [] + core + "\n" == line;
    }
    SecondField(name, v, [], '=');
    assert core == name + ['='] + v + [];
  }

  /** `ENABLE_NOTIFY=v` switches notifications on exactly when `v` is `1`; a quoted `"1"`
      switches them off, since the flag's quotes are not stripped. */
  lemma NotifyLine(v: string)
    requires v != [] && '=' !in v && !IsSpace(v[0]) && !IsSpace(v[|v| - 1])
    ensures Mentions(KeyText(NotifyKey) + v + "\n", NotifyKey)
    ensures '=' in KeyText(NotifyKey) + v + "\n" && Parsed(NotifyKey, KeyText(NotifyKey) + v + "\n") == FlagValue(v == "1")
  {
    LineField(NotifyKey, v);
    StripAround([], v, [], IsSpace);
    assert [] + v + [] == v;
  }

  /** The key is found anywhere in the line, even inside another word: a line such as
      `MY_VERSION=2` sets the version to `2`. */
  lemma KeyInsideWord(c: Settings, pre: string, v: string)
    requires pre != [] && '=' !in pre && !IsSpace(pre[0])
    requires v != [] && '=' !in v && !IsSpace(v[0]) && !IsSpace(v[|v| - 1]) && v[0] != '"' && v[|v| - 1] != '"'
    ensures Mentions(pre + KeyText(VersionKey) + v + "\n", VersionKey)
    ensures Get(ApplyLine(c, pre + KeyText(VersionKey) + v + "\n"), VersionKey) == TextValue(v)
  {
    WordLineMentions(pre, v);
    WordLineText(pre, v);
    ApplyLineGet(c, pre + KeyText(VersionKey) + v + "\n", VersionKey);
  }

  /** A line `pre VERSION= v` mentions the version key, whatever `pre` and `v` are. */
  lemma WordLineMentions(pre: string, v: string)
    ensures Mentions(pre + KeyText(VersionKey) + v + "\n", VersionKey)
  {
    var key := KeyText(VersionKey);
    var line := pre + key + v + "\n";
    assert line[|pre|..|pre| + |key|] == key;
    assert OccursAt(line, key, |pre|);
    ContainsOccurs(line, key);
  }

  /** A line `pre VERSION= v` gives the text `v`, when `pre` and `v` hold no `=`, do not start
      with a space and `v` is neither padded nor quoted. */
  lemma WordLineText(pre: string, v: string)
    requires pre != [] && '=' !in pre && !IsSpace(pre[0])
    requires v != [] && '=' !in v && !IsSpace(v[0]) && !IsSpace(v[|v| - 1]) && v[0] != '"' && v[|v| - 1] != '"'
    ensures '=' in pre + KeyText(VersionKey) + v + "\n" && TextOf(pre + KeyText(VersionKey) + v + "\n") == v
  {
    var name := pre + "VERSION";
    assert name + "=" + v + "\n" == pre + KeyText(VersionKey) + v + "\n";
    KeyLineField(name, v);
    StripAround([], v, [], c => c == '"');
    assert [] + v + [] == v;
  }
}
