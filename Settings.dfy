/**
 * The fallback settings loader used when pydantic-settings is not
 * installed: a line-oriented reader for `.env` files, and the precedence
 * rule that fills each declared field from the process environment first
 * and from the file second.
 */
module Settings {
  import opened Wrappers
  import opened Strings

  /** A character at which Python's `str.splitlines()` ends a line. */
  predicate IsLineBoundary(c: char) {
    c == '\n' || c == '\r' || c == '\U{0B}' || c == '\U{0C}' || ('\U{1C}' <= c <= '\U{1E}')
    || c == '\U{85}' || c == '\U{2028}' || c == '\U{2029}'
  }

  /** Index of the first line boundary (or |s|). */
  function LineEnd(s: string): (i: nat)
    ensures i <= |s|
    ensures forall k :: 0 <= k < i ==> !IsLineBoundary(s[k])
    ensures i < |s| ==> IsLineBoundary(s[i])
  {
    if s == [] || IsLineBoundary(s[0]) then 0 else 1 + LineEnd(s[1..])
  }

  /** A line without line boundaries. */
  predicate SingleLine(line: string) {
    forall k :: 0 <= k < |line| ==> !IsLineBoundary(line[k])
  }

  /**
   * Python's `str.splitlines()`: the lines without their terminators, where
   * CR LF counts as one terminator and a final terminator adds no empty line.
   */
  function SplitLines(s: string): (lines: seq<string>)
    ensures forall k :: 0 <= k < |lines| ==> SingleLine(lines[k])
    ensures |lines| <= |s|
    decreases |s|
  {
    if s == [] then []
    else
      var i := LineEnd(s);
      var next := if i + 1 < |s| && s[i] == '\r' && s[i + 1] == '\n' then i + 2 else i + 1;
      [s[..i]] + (if next >= |s| then [] else SplitLines(s[next..]))
  }

  /** A non-empty single line splits to itself. */
  lemma SplitLinesSingle(s: string)
    requires s != [] && SingleLine(s)
    ensures SplitLines(s) == [s]
  {
    assert LineEnd(s) == |s|;
    assert s[..|s|] == s;
  }

  /** Splitting `a + "\n" + b` peels the single line `a` off. */
  lemma SplitLinesAfter(a: string, b: string)
    requires SingleLine(a) && b != []
    ensures SplitLines(a + "\n" + b) == [a] + SplitLines(b)
  {
    var s := a + "\n" + b;
    assert s[|a|] == '\n';
    assert forall k :: 0 <= k < |a| ==> s[k] == a[k];
    assert LineEnd(s) == |a|;
    assert s[..|a|] == a;
    assert s[|a| + 1..] == b;
  }

  /** Splitting `a + "\r\n" + b` peels the single line `a` off: CR LF is one terminator. */
  lemma SplitLinesAfterCrLf(a: string, b: string)
    requires SingleLine(a) && b != []
    ensures SplitLines(a + "\r\n" + b) == [a] + SplitLines(b)
  {
    var s := a + "\r\n" + b;
    assert s[|a|] == '\r' && s[|a| + 1] == '\n';
    assert forall k :: 0 <= k < |a| ==> s[k] == a[k];
    assert LineEnd(s) == |a|;
    assert s[..|a|] == a;
    assert s[|a| + 2..] == b;
  }

  /**
   * `splitlines` undoes joining with LF when no line holds a line boundary
   * and the last line is not empty.
   */
  lemma {:induction false} SplitLinesJoin(xs: seq<string>)
    requires forall k :: 0 <= k < |xs| ==> SingleLine(xs[k])
    requires xs != [] ==> xs[|xs| - 1] != []
    ensures SplitLines(Join(xs, "\n")) == xs
  {
    if |xs| == 1 {
      SplitLinesSingle(xs[0]);
    } else if |xs| > 1 {
      var rest := Join(xs[1..], "\n");
      SplitLinesJoin(xs[1..]);
      assert rest != [] by {
        if |xs| == 2 {
          assert rest == xs[1];
        } else {
          assert rest == xs[1] + "\n" + Join(xs[2..], "\n");
        }
      }
      SplitLinesAfter(xs[0], rest);
      assert [xs[0]] + xs[1..] == xs;
    }
  }

  /** A single line followed by LF splits to that line alone. */
  lemma SplitLinesTerminated(a: string)
    requires SingleLine(a)
    ensures SplitLines(a + "\n") == [a]
  {
    var s := a + "\n";
    assert s[|a|] == '\n';
    assert forall k :: 0 <= k < |a| ==> s[k] == a[k];
    assert LineEnd(s) == |a|;
    assert s[..|a|] == a;
  }

  /**
   * `splitlines` undoes writing each line followed by LF, the usual shape
   * of a file; the final terminator adds no empty line.
   */
  lemma {:induction false} SplitLinesJoinTerminated(xs: seq<string>)
    requires xs != []
    requires forall k :: 0 <= k < |xs| ==> SingleLine(xs[k])
    ensures SplitLines(Join(xs, "\n") + "\n") == xs
  {
    if |xs| == 1 {
      SplitLinesTerminated(xs[0]);
    } else {
      var rest := Join(xs[1..], "\n") + "\n";
      SplitLinesJoinTerminated(xs[1..]);
      assert Join(xs, "\n") + "\n" == xs[0] + "\n" + rest;
      SplitLinesAfter(xs[0], rest);
      assert [xs[0]] + xs[1..] == xs;
    }
  }

  /**
   * What one line of the file contributes: nothing when it is blank or a
   * `#` comment after stripping, or has no `=`; otherwise the stripped text
   * before the first `=` as key and the stripped rest as value.
   */
  function LineEntry(raw: string): (e: Option<(string, string)>)
    ensures e.None? <==> Strip(raw) == [] || Strip(raw)[0] == '#' || '=' !in Strip(raw)
    ensures e.Some? ==> Stripped(e.value.0) && Stripped(e.value.1) && '=' !in e.value.0
  {
    var line := Strip(raw);
    if line == [] || line[0] == '#' || '=' !in line then None
    else
      var i := FirstIndex(line, '=');
      var key := Strip(line[..i]);
      assert '=' !in key by {
        if '=' in key { StripKeeps(line[..i], '='); }
      }
      Some((key, Strip(line[i + 1..])))
  }

  /** An entry of the file, or `None` for a line that contributes nothing. */
  type Entry = Option<(string, string)>

  /** The entries of the lines, in order. */
  function Entries(lines: seq<string>): (es: seq<Entry>)
    ensures |es| == |lines|
    ensures forall i :: 0 <= i < |lines| ==> es[i] == LineEntry(lines[i])
  {
    seq(|lines|, i requires 0 <= i < |lines| => LineEntry(lines[i]))
  }

  /** The map built from the entries in order: a later entry overwrites an earlier key. */
  function Collect(es: seq<Entry>): map<string, string> {
    if es == [] then map[]
    else
      var m := Collect(es[..|es| - 1]);
      match es[|es| - 1]
      case None => m
      case Some((k, v)) => m[k := v]
  }

  /** Keys and values carry no surrounding whitespace, and keys hold no `=`. */
  predicate CleanEntries(m: map<string, string>) {
    forall k :: k in m ==> Stripped(k) && Stripped(m[k]) && '=' !in k
  }

  /**
   * The map `_read_env` builds from the lines of a file: its keys and values
   * carry no surrounding whitespace, and its keys hold no `=`.
   */
  function ParseEnv(lines: seq<string>): (m: map<string, string>)
    ensures CleanEntries(m)
  {
    CollectStripped(Entries(lines));
    Collect(Entries(lines))
  }

  /** The values the env file provides; none when it does not exist. */
  function FileValues(envFile: Option<string>): (m: map<string, string>)
    ensures envFile.None? ==> m == map[]
    ensures CleanEntries(m)
  {
    match envFile
    case None => map[]
    case Some(text) => ParseEnv(SplitLines(text))
  }

  /** `_read_env`: reads the file line by line into a map. */
  method ReadEnv(envFile: Option<string>) returns (data: map<string, string>)
    ensures data == FileValues(envFile)
  {
    data := map[];
    if envFile.None? {
      return;
    }
    var lines := SplitLines(envFile.value);
    ghost var es := Entries(lines);
    for i := 0 to |lines|
      invariant data == Collect(es[..i])
    {
      var entry := LineEntry(lines[i]);
      CollectStep(es, i);
      if entry.Some? {
        data := data[entry.value.0 := entry.value.1];
      }
    }
    assert es[..|lines|] == es;
  }

  /** Collecting one more entry stores it, or changes nothing for a skipped line. */
  lemma CollectStep(es: seq<Entry>, i: nat)
    requires i < |es|
    ensures es[i].None? ==> Collect(es[..i + 1]) == Collect(es[..i])
    ensures es[i].Some? ==> Collect(es[..i + 1]) == Collect(es[..i])[es[i].value.0 := es[i].value.1]
  {
    assert es[..i + 1][..i] == es[..i];
  }

  /** Every entry has a stripped key without `=` and a stripped value. */
  predicate WellFormed(es: seq<Entry>) {
    forall i :: 0 <= i < |es| && es[i].Some? ==>
      Stripped(es[i].value.0) && Stripped(es[i].value.1) && '=' !in es[i].value.0
  }

  /** Stored keys and values carry no surrounding whitespace, and keys hold no `=`. */
  lemma {:induction false} CollectStripped(es: seq<Entry>)
    requires WellFormed(es)
    ensures forall k :: k in Collect(es) ==> Stripped(k) && Stripped(Collect(es)[k]) && '=' !in k
  {
    if es != [] {
      CollectStripped(es[..|es| - 1]);
    }
  }

  /** Entry `e` assigns key `k`. */
  predicate Assigns(e: Entry, k: string) {
    e.Some? && e.value.0 == k
  }

  /** Entry `i` assigns `k` and no later entry does. */
  predicate LastAssignment(es: seq<Entry>, k: string, i: int) {
    0 <= i < |es| && Assigns(es[i], k)
    && forall j :: i < j < |es| ==> !Assigns(es[j], k)
  }

  /** A key is collected exactly when some entry assigns it. */
  lemma {:induction false} CollectHasKey(es: seq<Entry>, k: string)
    ensures k in Collect(es) <==> exists i :: 0 <= i < |es| && Assigns(es[i], k)
  {
    if es != [] {
      var n := |es| - 1;
      var init := es[..n];
      CollectHasKey(init, k);
      if !Assigns(es[n], k) {
        assert k in Collect(es) <==> k in Collect(init);
        if exists i :: 0 <= i < |es| && Assigns(es[i], k) {
          var i :| 0 <= i < |es| && Assigns(es[i], k);
          assert init[i] == es[i];
        }
        if exists i :: 0 <= i < |init| && Assigns(init[i], k) {
          var i :| 0 <= i < |init| && Assigns(init[i], k);
          assert es[i] == init[i];
        }
      }
    }
  }

  /** A collected value is the one the last entry assigning its key gives. */
  lemma {:induction false} CollectLastWins(es: seq<Entry>, k: string)
    requires k in Collect(es)
    ensures exists i :: LastAssignment(es, k, i) && Collect(es)[k] == es[i].value.1
  {
    var n := |es| - 1;
    var init := es[..n];
    if Assigns(es[n], k) {
      assert LastAssignment(es, k, n);
    } else {
      assert k in Collect(init) && Collect(es)[k] == Collect(init)[k];
      CollectLastWins(init, k);
      var i :| LastAssignment(init, k, i) && Collect(init)[k] == init[i].value.1;
      assert es[i] == init[i];
      forall j | i < j < |es|
        ensures !Assigns(es[j], k)
      {
        if j < n {
          assert es[j] == init[j];
        }
      }
      assert LastAssignment(es, k, i);
    }
  }

  /**
   * A key is in the file's map exactly when some line assigns it, and its
   * value is the one the last such line gives.
   */
  lemma LastLineWins(lines: seq<string>, k: string)
    ensures k in ParseEnv(lines) <==> exists i :: 0 <= i < |lines| && Assigns(LineEntry(lines[i]), k)
    ensures k in ParseEnv(lines) ==>
      exists i :: (LastAssignment(Entries(lines), k, i) && ParseEnv(lines)[k] == LineEntry(lines[i]).value.1)
  {
    var es := Entries(lines);
    CollectHasKey(es, k);
    if k in ParseEnv(lines) {
      CollectLastWins(es, k);
    }
  }

  /**
   * A line reads as its stripped form, so surrounding blanks never reach
   * the key or the value.
   */
  lemma LineEntryStrips(raw: string)
    ensures LineEntry(raw) == LineEntry(Strip(raw))
  {
    StripStripped(Strip(raw));
  }

  /** A stripped line whose first `=` is at `i` splits there. */
  lemma SplitAtFirstEquals(line: string, i: nat)
    requires i < |line| && line[i] == '=' && '=' !in line[..i]
    requires Stripped(line) && line[0] != '#'
    ensures LineEntry(line) == Some((Strip(line[..i]), Strip(line[i + 1..])))
  {
    StripStripped(line);
    assert FirstIndex(line, '=') == i;
  }

  /**
   * A line `k=v` whose key starts with neither whitespace nor `#` and whose
   * value does not end in whitespace stores the stripped key and value;
   * only the first `=` splits, so the value may hold further `=`.
   */
  lemma AssignmentLine(k: string, v: string)
    requires k == [] || (!IsSpace(k[0]) && k[0] != '#')
    requires '=' !in k
    requires v == [] || !IsSpace(v[|v| - 1])
    ensures LineEntry(k + "=" + v) == Some((Strip(k), Strip(v)))
  {
    var line := k + "=" + v;
    assert line[0] == if k == [] then '=' else k[0];
    assert line[|line| - 1] == if v == [] then '=' else v[|v| - 1];
    StripStripped(line);
    assert line[|k|] == '=';
    assert line[..|k|] == k;
    assert line[|k| + 1..] == v;
    SplitAtFirstEquals(line, |k|);
  }

  /**
   * `load`: for each declared field, the environment's value if it has one,
   * else the file's; fields in neither are left out (so their defaults
   * apply) and keys that are not fields are ignored.
   */
  method Load(fields: seq<string>, environ: map<string, string>, envFile: Option<string>)
    returns (data: map<string, string>)
    ensures forall f :: f in data <==> f in fields && (f in environ || f in FileValues(envFile))
    ensures forall f :: f in data && f in environ ==> data[f] == environ[f]
    ensures forall f :: f in data && f !in environ ==> data[f] == FileValues(envFile)[f]
  {
    var envValues := ReadEnv(envFile);
    data := map[];
    for i := 0 to |fields|
      invariant forall f :: f in data <==> f in fields[..i] && (f in environ || f in envValues)
      invariant forall f :: f in data && f in environ ==> data[f] == environ[f]
      invariant forall f :: f in data && f !in environ ==> data[f] == envValues[f]
    {
      var field := fields[i];
      assert fields[..i + 1] == fields[..i] + [field];
      if field in environ {
        data := data[field := environ[field]];
      } else if field in envValues {
        data := data[field := envValues[field]];
      }
    }
    assert fields[..|fields|] == fields;
  }
}
