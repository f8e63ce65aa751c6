/** The environment-file generator (src/generate_env.py): the `.env` reader and
    writer and the merge of a template with per-environment defaults. Files are
    text values; whether a file exists or can be opened is a parameter. */
module GenerateEnv {
  import opened Wrappers
  import Text

  /** A Python dict from names to values, in insertion order. */
  type EnvVars = seq<(string, string)>

  function Names(d: EnvVars): seq<string>
  {
    if d == [] then [] else [d[0].0] + Names(d[1..])
  }

  /** The names of a dict, position by position. */
  lemma {:induction false} NamesAt(d: EnvVars)
    ensures |Names(d)| == |d| && forall i :: 0 <= i < |d| ==> Names(d)[i] == d[i].0
    decreases |d|
  {
    if d != [] {
      NamesAt(d[1..]);
    }
  }

  /** No name appears twice, as in any dict. */
  predicate DistinctNames(d: EnvVars) {
    forall i, j :: 0 <= i < j < |d| ==> d[i].0 != d[j].0
  }

  /** `d.get(k)`. */
  function Get(d: EnvVars, k: string): Option<string>
  {
    if d == [] then None
    else if d[0].0 == k then Some(d[0].1)
    else Get(d[1..], k)
  }

  /** `get` finds exactly the names of the dict. */
  lemma {:induction false} GetSome(d: EnvVars, k: string)
    ensures Get(d, k).Some? <==> k in Names(d)
    decreases |d|
  {
    if d != [] {
      GetSome(d[1..], k);
      assert Names(d) == [d[0].0] + Names(d[1..]);
    }
  }

  /** A value that `get` returns is stored under the name; in a dict, the value
      stored under a name is the one `get` returns. */
  lemma {:induction false} GetFound(d: EnvVars, k: string)
    ensures Get(d, k).Some? ==> exists i :: 0 <= i < |d| && d[i] == (k, Get(d, k).value)
    ensures DistinctNames(d) ==> forall i :: 0 <= i < |d| && d[i].0 == k ==> Get(d, k) == Some(d[i].1)
    decreases |d|
  {
    if d != [] && d[0].0 != k {
      var t := d[1..];
      GetFound(t, k);
      if Get(d, k).Some? {
        var i :| 0 <= i < |t| && t[i] == (k, Get(t, k).value);
        assert d[i + 1] == t[i];
      }
      if DistinctNames(d) {
        assert DistinctNames(t) by {
          forall i, j | 0 <= i < j < |t| ensures t[i].0 != t[j].0 {
            assert t[i] == d[i + 1] && t[j] == d[j + 1];
          }
        }
        forall i | 0 <= i < |d| && d[i].0 == k ensures Get(d, k) == Some(d[i].1) {
          assert i > 0;
          assert t[i - 1] == d[i];
        }
      }
    } else if d != [] && DistinctNames(d) {
      forall i | 0 <= i < |d| && d[i].0 == k ensures Get(d, k) == Some(d[i].1) {
      }
    }
  }

  /** `d[k] = v`: a name already present keeps its position and takes the new value;
      a new name goes last. */
  function Put(d: EnvVars, k: string, v: string): EnvVars
  {
    if d == [] then [(k, v)]
    else if d[0].0 == k then [(k, v)] + d[1..]
    else [d[0]] + Put(d[1..], k, v)
  }

  /** Putting a present name leaves the names as they were; a new name is
      appended with its value. */
  lemma {:induction false} PutNames(d: EnvVars, k: string, v: string)
    ensures k in Names(d) ==> Names(Put(d, k, v)) == Names(d)
    ensures k !in Names(d) ==> Put(d, k, v) == d + [(k, v)]
    decreases |d|
  {
    if d != [] && d[0].0 != k {
      PutNames(d[1..], k, v);
      assert Names(d) == [d[0].0] + Names(d[1..]);
      assert Names(Put(d, k, v)) == [d[0].0] + Names(Put(d[1..], k, v));
      if k !in Names(d) {
        assert [d[0]] + (d[1..] + [(k, v)]) == d + [(k, v)];
      }
    }
  }

  /** After `d[k] = v`, `k` reads `v` and every other name reads as before. */
  lemma {:induction false} PutGet(d: EnvVars, k: string, v: string)
    ensures Get(Put(d, k, v), k) == Some(v)
    ensures forall k' :: k' != k ==> Get(Put(d, k, v), k') == Get(d, k')
    decreases |d|
  {
    if d != [] {
      if d[0].0 == k {
        assert Put(d, k, v)[1..] == d[1..];
      } else {
        PutGet(d[1..], k, v);
        assert Put(d, k, v)[1..] == Put(d[1..], k, v);
      }
    }
  }

  /** Putting keeps the names of a dict distinct. */
  lemma PutDistinct(d: EnvVars, k: string, v: string)
    requires DistinctNames(d)
    ensures DistinctNames(Put(d, k, v))
  {
    PutNames(d, k, v);
    var r := Put(d, k, v);
    NamesAt(d);
    NamesAt(r);
    if k in Names(d) {
      forall i, j | 0 <= i < j < |r| ensures r[i].0 != r[j].0 {
        assert r[i].0 == Names(r)[i] == Names(d)[i] == d[i].0;
        assert r[j].0 == Names(r)[j] == Names(d)[j] == d[j].0;
      }
    } else {
      forall i, j | 0 <= i < j < |r| ensures r[i].0 != r[j].0 {
        if j == |d| {
          assert r[j].0 == k;
          assert r[i].0 == d[i].0 == Names(d)[i];
        }
      }
    }
  }

  /** One line of `read_env_file`: strip it; skip it when it is empty or a comment;
      otherwise, when it holds an '=', split it at the first one and record the
      stripped name and value (a later line for the same name wins). */
  function ReadLine(acc: EnvVars, line: string): EnvVars {
    ReadStripped(acc, Text.Strip(line))
  }

  /** The same step on a line that is already stripped. */
  function ReadStripped(acc: EnvVars, s: string): EnvVars {
    if s == [] || Text.StartsWith(s, "#") then acc
    else
      match Text.IndexOf(s, '=')
      case None => acc
      case Some(i) => Put(acc, Text.Strip(s[..i]), Text.Strip(s[i + 1..]))
  }

  /** One line never introduces a second entry for a name. */
  lemma ReadLineDistinct(acc: EnvVars, line: string)
    requires DistinctNames(acc)
    ensures DistinctNames(ReadLine(acc, line))
  {
    assert ReadLine(acc, line) == ReadStripped(acc, Text.Strip(line));
    ReadStrippedDistinct(acc, Text.Strip(line));
  }

  lemma ReadStrippedDistinct(acc: EnvVars, s: string)
    requires DistinctNames(acc)
    ensures DistinctNames(ReadStripped(acc, s))
  {
    var r := ReadStripped(acc, s);
    if s == [] || Text.StartsWith(s, "#") {
      assert r == acc;
    } else {
      match Text.IndexOf(s, '=')
      case None =>
        assert r == acc;
      case Some(i) =>
        var k, v := Text.Strip(s[..i]), Text.Strip(s[i + 1..]);
        assert r == Put(acc, k, v);
        PutDistinct(acc, k, v);
    }
  }

  /** The dict read from the given lines. */
  function ReadLines(lines: seq<string>): EnvVars
  {
    if lines == [] then []
    else ReadLine(ReadLines(lines[..|lines| - 1]), lines[|lines| - 1])
  }

  /** What `read_env_file` returns is a dict: no name twice. */
  lemma {:induction false} ReadLinesDistinct(lines: seq<string>)
    ensures DistinctNames(ReadLines(lines))
    decreases |lines|
  {
    if lines != [] {
      ReadLinesDistinct(lines[..|lines| - 1]);
      ReadLineDistinct(ReadLines(lines[..|lines| - 1]), lines[|lines| - 1]);
    }
  }

  /** `read_env_file`. `file` is the content of the file, `None` when it cannot be
      opened or read, which ends the program with status 1. */
  method ReadEnvFile(file: Option<string>) returns (r: Result<EnvVars>)
    ensures r.Failure? <==> file.None?
    ensures r.Success? ==> r.value == ReadLines(Text.SplitOn(file.value, '\n'))
  {
    if file.None? {
      return Failure("exit 1");
    }
    var lines := Text.SplitOn(file.value, '\n');
    var envVars: EnvVars := [];
    var i := 0;
    while i < |lines|
      invariant 0 <= i <= |lines|
      invariant envVars == ReadLines(lines[..i])
    {
      ReadLinesPrefix(lines, i);
      envVars := ReadLine(envVars, lines[i]);
      i := i + 1;
    }
    ReadLinesAll(lines);
    r := Success(envVars);
  }

  /** Reading one more line of the file. */
  lemma ReadLinesPrefix(lines: seq<string>, i: nat)
    requires i < |lines|
    ensures ReadLines(lines[..i + 1]) == ReadLine(ReadLines(lines[..i]), lines[i])
  {
    assert lines[..i + 1][..i] == lines[..i];
  }

  lemma ReadLinesAll(lines: seq<string>)
    ensures ReadLines(lines[..|lines|]) == ReadLines(lines)
  {
    assert lines[..|lines|] == lines;
  }

  /** `os.path.basename`: what follows the last '/'. */
  function Basename(path: string): (r: string)
    ensures '/' !in r && |r| <= |path| && r == path[|path| - |r|..]
  {
    if path == [] || path[|path| - 1] == '/' then []
    else Basename(path[..|path| - 1]) + [path[|path| - 1]]
  }

  function EntryLine(e: (string, string)): string {
    e.0 + "=" + e.1
  }

  /** The entries as written: one `name=value` line each, in dict order. */
  function Body(d: EnvVars): string {
    if d == [] then [] else EntryLine(d[0]) + "\n" + Body(d[1..])
  }

  function CommentLine(text: string): (r: string)
    ensures r != [] && r[0] == '#'
  {
    "#" + text
  }

  function Header(name: string, timestamp: string): string {
    CommentLine(" Generated configuration for " + name) + "\n" + CommentLine(" Generated on: " + timestamp) + "\n" + "\n"
  }

  /** The text `write_env_file` writes. */
  function Rendered(name: string, timestamp: string, d: EnvVars): string {
    Header(name, timestamp) + Body(d)
  }

  lemma {:induction false} BodySnoc(d: EnvVars, e: (string, string))
    ensures Body(d + [e]) == Body(d) + EntryLine(e) + "\n"
    decreases |d|
  {
    if d == [] {
      assert [e][1..] == [];
    } else {
      assert (d + [e])[1..] == d[1..] + [e];
      BodySnoc(d[1..], e);
    }
  }

  /** Writing entry `i` after the first `i` extends the text by its line. */
  lemma WriteStep(header: string, d: EnvVars, i: nat)
    requires i < |d|
    ensures header + Body(d[..i]) + d[i].0 + "=" + d[i].1 + "\n" == header + Body(d[..i + 1])
  {
    assert d[..i + 1] == d[..i] + [d[i]];
    BodySnoc(d[..i], d[i]);
  }

  /** `write_env_file`: two comment lines naming the file and the time (a
      parameter), a blank line, then every entry. A failure to write ends the
      program with status 1. */
  method WriteEnvFile(path: string, timestamp: string, envVars: EnvVars, fault: bool) returns (r: Result<string>)
    ensures r.Failure? <==> fault
    ensures r.Success? ==> r.value == Rendered(Basename(path), timestamp, envVars)
  {
    if fault {
      return Failure("exit 1");
    }
    var text := Header(Basename(path), timestamp);
    var i := 0;
    while i < |envVars|
      invariant 0 <= i <= |envVars|
      invariant text == Header(Basename(path), timestamp) + Body(envVars[..i])
    {
      WriteStep(Header(Basename(path), timestamp), envVars, i);
      text := text + envVars[i].0 + "=" + envVars[i].1 + "\n";
      i := i + 1;
    }
    assert envVars[..|envVars|] == envVars;
    r := Success(text);
  }

  /** An entry that survives a write and a read unchanged: name and value already
      stripped and on one line (no '\n', and no '\r', which reading in universal-newline
      mode also ends a line at), no '=' in the name, and a name that does not start
      a comment. */
  predicate Writable(e: (string, string)) {
    && Text.Stripped(e.0) && Text.Stripped(e.1)
    && '\n' !in e.0 && '\n' !in e.1
    && '\r' !in e.0 && '\r' !in e.1
    && '=' !in e.0
    && (e.0 == [] || e.0[0] != '#')
  }

  function EntryLines(d: EnvVars): (r: seq<string>)
    ensures |r| == |d| && forall i :: 0 <= i < |d| ==> r[i] == EntryLine(d[i])
  {
    if d == [] then [] else [EntryLine(d[0])] + EntryLines(d[1..])
  }

  lemma {:induction false} SplitBody(d: EnvVars)
    requires forall i :: 0 <= i < |d| ==> Writable(d[i])
    ensures Text.SplitOn(Body(d), '\n') == EntryLines(d) + [""]
    decreases |d|
  {
    if d == [] {
      Text.SplitOnAbsent("", '\n');
    } else {
      var line, tail := EntryLine(d[0]), d[1..];
      OneLine(d[0]);
      assert Body(d) == line + ['\n'] + Body(tail);
      Text.SplitAfterHead(line, '\n', Body(tail));
      WritableTail(d);
      SplitBody(tail);
      assert EntryLines(d) == [line] + EntryLines(tail);
      ConsAssoc(line, EntryLines(tail), [""]);
    }
  }

  /** A writable entry is written on one line. */
  lemma OneLine(e: (string, string))
    requires Writable(e)
    ensures '\n' !in EntryLine(e)
  {
  }

  lemma WritableTail(d: EnvVars)
    requires d != [] && forall i :: 0 <= i < |d| ==> Writable(d[i])
    ensures forall i :: 0 <= i < |d[1..]| ==> Writable(d[1..][i])
  {
    forall i | 0 <= i < |d[1..]| ensures Writable(d[1..][i]) {
      assert d[1..][i] == d[i + 1];
    }
  }

  lemma ConsAssoc(x: string, a: seq<string>, b: seq<string>)
    ensures [x] + (a + b) == ([x] + a) + b
  {
  }

  /** A line that does not start with whitespace keeps its first character when
      stripped. */
  lemma StripKeepsFirst(s: string)
    requires s != [] && !Text.IsSpace(s[0])
    ensures Text.Strip(s) != [] && Text.Strip(s)[0] == s[0]
  {
    assert Text.LStrip(s) == s;
    Text.RStripRemovesSpace(s);
  }

  /** A line that is not blank and does not start with '#' is parsed at its first '='. */
  lemma ReadLineParsed(acc: EnvVars, line: string, i: nat, k: string, v: string)
    requires Text.Strip(line) == line && line != [] && line[0] != '#'
    requires Text.IndexOf(line, '=') == Some(i)
    requires line[..i] == k && line[i + 1..] == v
    requires Text.Strip(k) == k && Text.Strip(v) == v
    ensures ReadLine(acc, line) == Put(acc, k, v)
  {
    NotComment(line);
    assert ReadLine(acc, line) == ReadStripped(acc, line);
    ReadStrippedParsed(acc, line, i);
  }

  lemma ReadStrippedParsed(acc: EnvVars, s: string, i: nat)
    requires s != [] && !Text.StartsWith(s, "#")
    requires Text.IndexOf(s, '=') == Some(i)
    ensures ReadStripped(acc, s) == Put(acc, Text.Strip(s[..i]), Text.Strip(s[i + 1..]))
  {
  }

  /** Text whose first character is not '#' is not a comment. */
  lemma NotComment(s: string)
    requires s != [] && s[0] != '#'
    ensures !Text.StartsWith(s, "#")
  {
    assert s[..1][0] == s[0];
  }

  /** A written entry line is already stripped. */
  lemma EntryLineStripped(e: (string, string))
    requires Writable(e)
    ensures Text.Strip(EntryLine(e)) == EntryLine(e)
  {
    assert EntryLine(e) == e.0 + ['='] + e.1;
    Text.StrippedJoin(e.0, '=', e.1);
    Text.StripStripped(EntryLine(e));
  }

  /** A written entry line is not blank and not a comment. */
  lemma EntryLineHead(e: (string, string))
    requires Writable(e)
    ensures EntryLine(e) != [] && EntryLine(e)[0] != '#'
  {
    var s := EntryLine(e);
    assert s == e.0 + ['='] + e.1;
    assert s[0] == if e.0 == [] then '=' else e.0[0];
  }

  /** The first '=' of a written entry line is the one right after the name. */
  lemma EntryLineSplit(e: (string, string))
    requires Writable(e)
    ensures var s := EntryLine(e);
            Text.IndexOf(s, '=') == Some(|e.0|) && s[..|e.0|] == e.0 && s[|e.0| + 1..] == e.1
  {
    var s := EntryLine(e);
    assert s == e.0 + ['='] + e.1;
    Text.IndexOfAfterHead(e.0, '=', e.1);
    assert s[..|e.0|] == e.0;
    assert s[|e.0| + 1..] == e.1;
  }

  /** Reading a written entry line records exactly that entry. */
  lemma ReadEntryLine(acc: EnvVars, e: (string, string))
    requires Writable(e)
    ensures ReadLine(acc, EntryLine(e)) == Put(acc, e.0, e.1)
  {
    var s, n := EntryLine(e), |e.0|;
    EntryLineStripped(e);
    EntryLineHead(e);
    EntryLineSplit(e);
    PartsStripped(e);
    ReadLineParsed(acc, s, n, e.0, e.1);
  }

  /** The name and value of a writable entry are already stripped. */
  lemma PartsStripped(e: (string, string))
    requires Writable(e)
    ensures Text.Strip(e.0) == e.0 && Text.Strip(e.1) == e.1
  {
    Text.StripStripped(e.0);
    Text.StripStripped(e.1);
  }

  lemma {:induction false} ReadEntries(prefix: seq<string>, d: EnvVars)
    requires ReadLines(prefix) == []
    requires DistinctNames(d)
    requires forall i :: 0 <= i < |d| ==> Writable(d[i])
    ensures ReadLines(prefix + EntryLines(d)) == d
    decreases |d|
  {
    if d == [] {
      assert prefix + EntryLines(d) == prefix;
    } else {
      var init, e := d[..|d| - 1], d[|d| - 1];
      assert d == init + [e];
      ReadEntries(prefix, init);
      LastNameIsNew(d);
      ReadEntriesStep(prefix, init, e);
    }
  }

  /** Reading one more written entry with a new name appends it. */
  lemma ReadEntriesStep(prefix: seq<string>, init: EnvVars, e: (string, string))
    requires ReadLines(prefix + EntryLines(init)) == init
    requires Writable(e) && e.0 !in Names(init)
    ensures ReadLines(prefix + EntryLines(init + [e])) == init + [e]
  {
    EntryLinesSnoc(init, e);
    LinesAssoc(prefix, EntryLines(init), EntryLine(e));
    ReadLinesSnoc(prefix + EntryLines(init), EntryLine(e));
    ReadEntryLine(init, e);
    PutNames(init, e.0, e.1);
  }

  lemma LinesAssoc(a: seq<string>, b: seq<string>, x: string)
    ensures a + (b + [x]) == (a + b) + [x]
  {
  }

  lemma ReadLinesSnoc(lines: seq<string>, line: string)
    ensures ReadLines(lines + [line]) == ReadLine(ReadLines(lines), line)
  {
    assert (lines + [line])[..|lines|] == lines;
  }

  lemma EntryLinesSnoc(d: EnvVars, e: (string, string))
    ensures EntryLines(d + [e]) == EntryLines(d) + [EntryLine(e)]
  {
  }

  lemma LastNameIsNew(d: EnvVars)
    requires DistinctNames(d) && d != []
    ensures d[|d| - 1].0 !in Names(d[..|d| - 1])
  {
    var init := d[..|d| - 1];
    NamesAt(init);
    forall j | 0 <= j < |init| ensures Names(init)[j] != d[|d| - 1].0 {
      assert Names(init)[j] == d[j].0;
    }
  }

  /** Reading back what `write_env_file` wrote gives the same dict, in the same
      order, provided every entry is `Writable` and the file name and time stamp
      are on one line. */
  lemma WrittenReadsBack(name: string, timestamp: string, d: EnvVars)
    requires '\n' !in name && '\n' !in timestamp
    requires DistinctNames(d)
    requires forall i :: 0 <= i < |d| ==> Writable(d[i])
    ensures ReadLines(Text.SplitOn(Rendered(name, timestamp, d), '\n')) == d
  {
    var h1 := CommentLine(" Generated configuration for " + name);
    var h2 := CommentLine(" Generated on: " + timestamp);
    SplitRendered(h1, h2, d);
    HeaderReadsEmpty(h1, h2);
    ReadEntries([h1, h2, ""], d);
    ReadLinesSnoc([h1, h2, ""] + EntryLines(d), "");
  }

  lemma SplitRendered(h1: string, h2: string, d: EnvVars)
    requires '\n' !in h1 && '\n' !in h2
    requires forall i :: 0 <= i < |d| ==> Writable(d[i])
    ensures Text.SplitOn(h1 + "\n" + h2 + "\n" + "\n" + Body(d), '\n') == [h1, h2, ""] + EntryLines(d) + [""]
  {
    SplitHeader(h1, h2, Body(d));
    SplitBody(d);
  }

  lemma SplitHeader(h1: string, h2: string, rest: string)
    requires '\n' !in h1 && '\n' !in h2
    ensures Text.SplitOn(h1 + "\n" + h2 + "\n" + "\n" + rest, '\n') == [h1, h2, ""] + Text.SplitOn(rest, '\n')
  {
    var t3 := "" + ['\n'] + rest;
    var t2 := h2 + ['\n'] + t3;
    HeaderText(h1, h2, rest);
    Text.SplitAfterHead(h1, '\n', t2);
    Text.SplitAfterHead(h2, '\n', t3);
    Text.SplitAfterHead("", '\n', rest);
    ThreeFirst(h1, h2, "", Text.SplitOn(rest, '\n'));
  }

  lemma HeaderText(h1: string, h2: string, rest: string)
    ensures h1 + "\n" + h2 + "\n" + "\n" + rest == h1 + ['\n'] + (h2 + ['\n'] + ("" + ['\n'] + rest))
  {
  }

  lemma ThreeFirst(a: string, b: string, c: string, x: seq<string>)
    ensures [a] + ([b] + ([c] + x)) == [a, b, c] + x
  {
  }

  /** The two comment lines and the blank line of the header add nothing. */
  lemma HeaderReadsEmpty(h1: string, h2: string)
    requires h1 != [] && h1[0] == '#' && h2 != [] && h2[0] == '#'
    ensures ReadLines([h1, h2, ""]) == []
  {
    ListsOfThree(h1, h2, "");
    ReadLinesSnoc([], h1);
    ReadLinesSnoc([h1], h2);
    ReadLinesSnoc([h1, h2], "");
    CommentSkipped([], h1);
    CommentSkipped([], h2);
    BlankSkipped([]);
  }

  lemma ListsOfThree(a: string, b: string, c: string)
    ensures [] + [a] == [a] && [a] + [b] == [a, b] && [a, b] + [c] == [a, b, c]
  {
  }

  /** A comment line adds nothing. */
  lemma CommentSkipped(acc: EnvVars, line: string)
    requires line != [] && line[0] == '#'
    ensures ReadLine(acc, line) == acc
  {
    StripKeepsFirst(line);
    var s := Text.Strip(line);
    assert s[..1] == "#";
  }

  /** A blank line adds nothing. */
  lemma BlankSkipped(acc: EnvVars)
    ensures ReadLine(acc, "") == acc
  {
    assert Text.Strip("") == "";
  }

  /** A line without '=' adds nothing. */
  lemma NoEqualsSkipped(acc: EnvVars, line: string)
    requires '=' !in line
    ensures ReadLine(acc, line) == acc
  {
    var s := Text.Strip(line);
    Text.StripInside(line);
    assert '=' !in s;
  }

  const AvailableEnvironments: seq<string> := ["development", "staging", "production", "test"]

  /** `ENV_DEFAULTS`: the overrides for each known environment. */
  function EnvDefaults(environment: string): Option<EnvVars> {
    if environment == "development" then
      Some([("DEBUG", "true"), ("API_CORS_ORIGINS", "[\"http://localhost:3000\"]"),
            ("REDIS_HOST", "localhost"), ("LOG_LEVEL", "DEBUG")])
    else if environment == "staging" then
      Some([("DEBUG", "false"), ("API_CORS_ORIGINS", "[\"https://staging.yourappdomain.com\"]")])
    else if environment == "production" then
      Some([("DEBUG", "false"), ("API_CORS_ORIGINS", "[\"https://yourappdomain.com\"]"), ("LOG_LEVEL", "INFO")])
    else if environment == "test" then
      Some([("DEBUG", "true"), ("API_CORS_ORIGINS", "[\"*\"]"),
            ("REDIS_HOST", "localhost"), ("LOG_LEVEL", "DEBUG")])
    else None
  }

  /** Every entry of `overrides` put into `d`, in order. */
  function PutAll(d: EnvVars, overrides: EnvVars): EnvVars
  {
    if overrides == [] then d
    else
      var n := |overrides| - 1;
      Put(PutAll(d, overrides[..n]), overrides[n].0, overrides[n].1)
  }

  /** Applying overrides to a dict gives a dict. */
  lemma {:induction false} PutAllDistinct(d: EnvVars, overrides: EnvVars)
    requires DistinctNames(d)
    ensures DistinctNames(PutAll(d, overrides))
    decreases |overrides|
  {
    if overrides != [] {
      var n := |overrides| - 1;
      PutAllDistinct(d, overrides[..n]);
      PutDistinct(PutAll(d, overrides[..n]), overrides[n].0, overrides[n].1);
    }
  }

  /** After applying the overrides, a name takes its override when it has one
      (the overrides themselves taken as a dict, so the last value given) and otherwise keeps
      its value. */
  lemma {:induction false} PutAllGet(d: EnvVars, overrides: EnvVars, k: string)
    ensures Get(PutAll(d, overrides), k) ==
      (if Get(PutAll([], overrides), k).Some? then Get(PutAll([], overrides), k) else Get(d, k))
    decreases |overrides|
  {
    if overrides != [] {
      var n := |overrides| - 1;
      PutAllGet(d, overrides[..n], k);
      PutGet(PutAll(d, overrides[..n]), overrides[n].0, overrides[n].1);
      PutGet(PutAll([], overrides[..n]), overrides[n].0, overrides[n].1);
    }
  }

  /** The dict `generate_env_file` writes: the template, the environment's
      overrides, then `ENVIRONMENT`. */
  function Generated(template: EnvVars, environment: string): EnvVars {
    var withDefaults := if EnvDefaults(environment).Some? then PutAll(template, EnvDefaults(environment).value) else template;
    Put(withDefaults, "ENVIRONMENT", environment)
  }

  /** What ends up under each name: `ENVIRONMENT` is the environment; a name with an
      override takes the override; every other name keeps its template value. */
  lemma GeneratedValues(template: EnvVars, environment: string, k: string)
    requires EnvDefaults(environment).Some?
    ensures var overrides := PutAll([], EnvDefaults(environment).value);
      Get(Generated(template, environment), k) ==
        if k == "ENVIRONMENT" then Some(environment)
        else if Get(overrides, k).Some? then Get(overrides, k)
        else Get(template, k)
  {
    PutAllGet(template, EnvDefaults(environment).value, k);
    PutGet(PutAll(template, EnvDefaults(environment).value), "ENVIRONMENT", environment);
  }

  /** The file path: the one given, or `.env.<environment>` when none (or an empty
      one) is. */
  function OutputPath(environment: string, outputFile: Option<string>): (r: string)
    ensures outputFile.Some? && outputFile.value != "" ==> r == outputFile.value
    ensures outputFile.None? || outputFile.value == "" ==> r == ".env." + environment
  {
    if outputFile.Some? && outputFile.value != "" then outputFile.value else ".env." + environment
  }

  /** The middle of `generate_env_file`: overwrite the template's entries with the
      environment's defaults one by one, then set `ENVIRONMENT`. */
  method MergeDefaults(template: EnvVars, environment: string) returns (envVars: EnvVars)
    ensures envVars == Generated(template, environment)
  {
    envVars := template;
    var defaults := EnvDefaults(environment);
    if defaults.Some? {
      var overrides := defaults.value;
      var i := 0;
      while i < |overrides|
        invariant 0 <= i <= |overrides|
        invariant envVars == PutAll(template, overrides[..i])
      {
        assert overrides[..i + 1][..i] == overrides[..i];
        envVars := Put(envVars, overrides[i].0, overrides[i].1);
        i := i + 1;
      }
      assert overrides[..|overrides|] == overrides;
    }
    envVars := Put(envVars, "ENVIRONMENT", environment);
  }

  /** How `generate_env_file` ends: the exit status, or the file written. */
  datatype Outcome = Exited(code: int) | Wrote(path: string, text: string)

  /** `generate_env_file`. `exampleExists` says whether the template file exists,
      `example` is its text (`None` when it cannot be read), `outputExists` whether
      the target exists, `answer` the reply to the overwrite prompt, `timestamp` the
      clock and `writeFault` a failed write. An unknown environment exits with 1 before
      any file is looked at; a missing template exits with 1 before the prompt; an
      existing target is overwritten only on a `y` or `Y` answer; only then is the
      template read, and a template that cannot be read exits with 1. */
  method GenerateEnvFile(environment: string, outputFile: Option<string>, exampleExists: bool,
                         example: Option<string>, outputExists: bool, answer: string,
                         timestamp: string, writeFault: bool)
    returns (o: Outcome)
    ensures environment !in AvailableEnvironments ==> o == Exited(1)
    ensures environment in AvailableEnvironments && !exampleExists ==> o == Exited(1)
    ensures environment in AvailableEnvironments && exampleExists && outputExists
            && answer != "y" && answer != "Y"
            ==> o == Exited(0)
    ensures environment in AvailableEnvironments && exampleExists
            && (outputExists ==> answer == "y" || answer == "Y") && example.None?
            ==> o == Exited(1)
    ensures o.Wrote? <==>
      environment in AvailableEnvironments && exampleExists && example.Some? && !writeFault
      && (outputExists ==> answer == "y" || answer == "Y")
    ensures o.Wrote? ==>
      o.path == OutputPath(environment, outputFile)
      && o.text == Rendered(Basename(o.path), timestamp,
                            Generated(ReadLines(Text.SplitOn(example.value, '\n')), environment))
  {
    if environment !in AvailableEnvironments {
      return Exited(1);
    }
    var path := OutputPath(environment, outputFile);
    if !exampleExists {
      return Exited(1);
    }
    if outputExists && answer != "y" && answer != "Y" {
      return Exited(0);
    }
    var read := ReadEnvFile(example);
    if read.Failure? {
      return Exited(1);
    }
    var envVars := MergeDefaults(read.value, environment);
    var written := WriteEnvFile(path, timestamp, envVars, writeFault);
    if written.Failure? {
      return Exited(1);
    }
    o := Wrote(path, written.value);
  }
}
