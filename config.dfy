/**
 * Reading the game configuration (`find_mods`): the `data=` lines of the
 * configuration name directories, and every plugin file found under them is
 * indexed by its file name.
 *
 * The file's lines, the directory walk and `os.path.join` are parameters:
 * `walk(dir)` is the sequence of `(basedir, filename)` pairs `os.walk(dir)`
 * reports, in order, and `join` stands for `os.path.join`.
 */
module Config {
  import opened Wrappers
  import opened Text

  /** What one configuration line contributes. */
  datatype LineKind =
    | Ignored                  // blank, comment, no `=`, or a key other than `data`
    | DataDir(dir: string)     // a `data` line naming this directory
    | EmptyData                // a `data` line whose value is empty: `pieces[1][0]` raises

  datatype ConfigError = EmptyDataValue(line: string)

  type Walker = string -> seq<(string, string)>
  type Joiner = (string, string) -> string

  /** Drops the surrounding double quotes, but only when the value both starts and ends with one. */
  function Unquote(value: string): string
    requires value != ""
  {
    if value[0] == '"' && value[|value| - 1] == '"' then
      (if |value| == 1 then "" else value[1..|value| - 1])
    else value
  }

  /** The classification of one line, in the order the tool tests it. */
  function ParseLine(line: string): LineKind {
    var clean := Strip(line);
    if clean == "" || clean[0] == '#' || '=' !in clean then Ignored
    else
      var pieces := Split(clean, '=');
      if Strip(pieces[0]) != "data" then Ignored
      else if Strip(pieces[1]) == "" then EmptyData
      else DataDir(Unquote(Strip(pieces[1])))
  }

  /** The first two pieces of `key=value` or `key=value=more` are `key` and `value`. */
  lemma SplitKeyValue(clean: string, key: string, value: string, rest: string)
    requires clean == key + "=" + value + rest
    requires '=' !in key && '=' !in value && (rest == "" || rest[0] == '=')
    ensures |Split(clean, '=')| >= 2 && Split(clean, '=')[0] == key && Split(clean, '=')[1] == value
  {
    assert clean == key + ['='] + (value + rest);
    SplitAfterSeparator(key, value + rest, '=');
    ValueFirstPiece(value, rest);
  }

  /** The text up to the end or the next `=` is the first piece. */
  lemma ValueFirstPiece(value: string, rest: string)
    requires '=' !in value && (rest == "" || rest[0] == '=')
    ensures Split(value + rest, '=')[0] == value
  {
    if rest == "" {
      assert value + rest == value;
      SplitNoSeparator(value, '=');
    } else {
      assert value + rest == value + ['='] + rest[1..];
      SplitAfterSeparator(value, rest[1..], '=');
    }
  }

  /** A stripped line that starts with a key stripping to `data` starts with `d`. */
  lemma DataKeyStart(line: string, key: string, more: string)
    requires Strip(line) == key + more && Strip(key) == "data"
    ensures Strip(line) != "" && Strip(line)[0] == 'd'
  {
    StripLeftSpec(line);
    StripRightSpec(StripLeft(line));
    StripRightSpec(key);
    assert key != [] && Strip(line)[0] == key[0];
    assert StripLeft(key) == key;
    assert key[0] == Strip(key)[0];
  }

  /**
   * A `data` line written as `key=value` or `key=value=more`: the directory is
   * the stripped text between the first and the second `=`, unquoted.
   */
  lemma ParseDataLine(line: string, key: string, value: string, rest: string)
    requires Strip(line) == key + "=" + value + rest
    requires '=' !in key && '=' !in value && (rest == "" || rest[0] == '=')
    requires Strip(key) == "data"
    ensures ParseLine(line) == if Strip(value) == "" then EmptyData else DataDir(Unquote(Strip(value)))
  {
    var clean := Strip(line);
    SplitKeyValue(clean, key, value, rest);
    DataKeyStart(line, key, "=" + value + rest);
    assert clean[|key|] == '=';
  }

  /** Blank lines, comments and lines without `=` contribute nothing. */
  lemma IgnoredLines(line: string)
    requires IsBlank(line) || (!IsBlank(line) && Strip(line)[0] == '#') || '=' !in Strip(line)
    ensures ParseLine(line) == Ignored
  {
  }

  /** Only a line whose first piece strips to `data` can name a directory or fail. */
  lemma OnlyDataKey(line: string)
    requires ParseLine(line) != Ignored
    ensures var clean := Strip(line);
      clean != "" && clean[0] != '#' && '=' in clean && Strip(Split(clean, '=')[0]) == "data"
  {
  }

  /** A walked file is a plugin when its lower-cased name ends in `esp`; no dot is required. */
  predicate IsEspName(name: string) {
    EndsWith(Lower(name), "esp")
  }

  /** A name is indexed exactly when its last three characters are `e`, `s`, `p` in either case. */
  lemma EspNameIff(name: string)
    ensures IsEspName(name) <==>
      |name| >= 3 && name[|name| - 3] in "eE" && name[|name| - 2] in "sS" && name[|name| - 1] in "pP"
  {
    var low := Lower(name);
    if |name| >= 3 {
      assert low[|name| - 3..] == [low[|name| - 3], low[|name| - 2], low[|name| - 1]];
    }
  }

  /** Some `data` line of these has an empty value. */
  predicate HasEmptyData(lines: seq<string>)
    decreases |lines|
  {
    |lines| > 0 && (HasEmptyData(lines[..|lines| - 1]) || ParseLine(lines[|lines| - 1]).EmptyData?)
  }

  lemma HasEmptyDataIff(lines: seq<string>)
    ensures HasEmptyData(lines) <==> exists k :: 0 <= k < |lines| && ParseLine(lines[k]).EmptyData?
  {
    if HasEmptyData(lines) {
      var k := EmptyDataWitness(lines);
    }
    if exists k :: 0 <= k < |lines| && ParseLine(lines[k]).EmptyData? {
      var k :| 0 <= k < |lines| && ParseLine(lines[k]).EmptyData?;
      assert lines[..k + 1][..k] == lines[..k];
      assert lines[..k + 1][k] == lines[k];
      HasEmptyDataPrefix(lines, k + 1);
    }
  }

  /** The line whose empty `data` value makes the condition hold. */
  lemma {:induction false} EmptyDataWitness(lines: seq<string>) returns (k: nat)
    requires HasEmptyData(lines)
    ensures k < |lines| && ParseLine(lines[k]).EmptyData?
    decreases |lines|
  {
    var init := lines[..|lines| - 1];
    if HasEmptyData(init) {
      k := EmptyDataWitness(init);
      assert lines[k] == init[k];
    } else {
      k := |lines| - 1;
    }
  }

  /** The data directories the lines name, in order. */
  function ConfigDirs(lines: seq<string>): seq<string>
    decreases |lines|
  {
    if |lines| == 0 then []
    else
      ConfigDirs(lines[..|lines| - 1]) +
      match ParseLine(lines[|lines| - 1])
      case DataDir(dir) => [dir]
      case _ => []
  }

  /** Every `(basedir, filename)` pair the walks of the directories report, in order. */
  function WalkAll(dirs: seq<string>, walk: Walker): seq<(string, string)>
    decreases |dirs|
  {
    if |dirs| == 0 then [] else WalkAll(dirs[..|dirs| - 1], walk) + walk(dirs[|dirs| - 1])
  }

  /** A walked pair is in the combined walk exactly when one of the directories' walks reports it. */
  lemma {:induction false} WalkAllMembers(dirs: seq<string>, walk: Walker, file: (string, string))
    ensures file in WalkAll(dirs, walk) <==> exists k :: 0 <= k < |dirs| && file in walk(dirs[k])
    decreases |dirs|
  {
    if |dirs| > 0 {
      var init := dirs[..|dirs| - 1];
      WalkAllMembers(init, walk, file);
      if file in WalkAll(dirs, walk) && file !in walk(dirs[|dirs| - 1]) {
        var k :| 0 <= k < |init| && file in walk(init[k]);
        assert dirs[k] == init[k];
      }
      if exists k :: 0 <= k < |dirs| && file in walk(dirs[k]) {
        var k :| 0 <= k < |dirs| && file in walk(dirs[k]);
        if k < |init| {
          assert init[k] == dirs[k];
        }
      }
    }
  }

  /** The file names an index built from these walked files has as keys. */
  function EspNames(files: seq<(string, string)>): set<string> {
    set f | f in files && IsEspName(f.1) :: f.1
  }

  /** The joined paths of the walked files called `name`. */
  function PathsNamed(files: seq<(string, string)>, name: string, join: Joiner): set<string> {
    set f | f in files && f.1 == name :: join(f.0, f.1)
  }

  /** The index `find_mods` builds from these walked files: plugin name to its joined paths. */
  function IndexOf(files: seq<(string, string)>, join: Joiner): map<string, set<string>> {
    map name | name in EspNames(files) :: PathsNamed(files, name, join)
  }

  /**
   * A name is a key exactly when a walked file of that name is a plugin; its set
   * holds the joined path of every walked file of that name, and is never empty.
   */
  lemma IndexOfSpec(files: seq<(string, string)>, join: Joiner, name: string)
    ensures name in IndexOf(files, join) <==> exists k :: 0 <= k < |files| && files[k].1 == name && IsEspName(name)
    ensures name in IndexOf(files, join) ==>
      IndexOf(files, join)[name] != {} &&
      forall path :: path in IndexOf(files, join)[name] <==>
        exists k :: 0 <= k < |files| && files[k].1 == name && path == join(files[k].0, name)
  {
    if name in IndexOf(files, join) {
      var f :| f in files && IsEspName(f.1) && f.1 == name;
      assert join(f.0, f.1) in IndexOf(files, join)[name];
    }
  }

  /** The update the loop body of `find_mods` makes for one walked file. */
  function AddFile(mods: map<string, set<string>>, file: (string, string), join: Joiner): map<string, set<string>> {
    if IsEspName(file.1) then
      mods[file.1 := (if file.1 in mods then mods[file.1] else {}) + {join(file.0, file.1)}]
    else mods
  }

  /** `AddFile` written as the statements of the loop body. */
  lemma AddFileUpdate(mods: map<string, set<string>>, basedir: string, filename: string, join: Joiner)
    ensures AddFile(mods, (basedir, filename), join) ==
      if IsEspName(filename) then
        var m := if filename !in mods then mods[filename := {}] else mods;
        m[filename := m[filename] + {join(basedir, filename)}]
      else mods
  {
  }

  lemma EspNamesStep(files: seq<(string, string)>, file: (string, string))
    ensures EspNames(files + [file]) == EspNames(files) + (if IsEspName(file.1) then {file.1} else {})
  {
    assert forall f :: f in files + [file] <==> f in files || f == file;
  }

  lemma PathsNamedStep(files: seq<(string, string)>, file: (string, string), name: string, join: Joiner)
    ensures PathsNamed(files + [file], name, join) ==
      PathsNamed(files, name, join) + (if file.1 == name then {join(file.0, file.1)} else {})
  {
    assert forall f :: f in files + [file] <==> f in files || f == file;
  }

  /** Indexing one more walked file is the update the loop body of `find_mods` makes. */
  lemma IndexStep(files: seq<(string, string)>, file: (string, string), join: Joiner)
    ensures IndexOf(files + [file], join) == AddFile(IndexOf(files, join), file, join)
  {
    var m := IndexOf(files, join);
    var m' := IndexOf(files + [file], join);
    var expected := AddFile(m, file, join);
    EspNamesStep(files, file);
    assert m'.Keys == expected.Keys;
    forall name | name in m'
      ensures m'[name] == expected[name]
    {
      PathsNamedStep(files, file, name, join);
    }
  }

  /** Entries are only ever added to: walking more files keeps every key and every path. */
  lemma IndexGrows(files: seq<(string, string)>, more: seq<(string, string)>, join: Joiner)
    ensures forall name :: name in IndexOf(files, join) ==>
      name in IndexOf(files + more, join) && IndexOf(files, join)[name] <= IndexOf(files + more, join)[name]
  {
    assert forall f :: f in files ==> f in files + more;
  }

  /** What one more line adds to the walked files and to the error condition. */
  lemma LineStep(lines: seq<string>, i: nat, walk: Walker)
    requires i < |lines|
    ensures WalkAll(ConfigDirs(lines[..i + 1]), walk) ==
      if ParseLine(lines[i]).DataDir? then WalkAll(ConfigDirs(lines[..i]), walk) + walk(ParseLine(lines[i]).dir)
      else WalkAll(ConfigDirs(lines[..i]), walk)
    ensures HasEmptyData(lines[..i + 1]) == (HasEmptyData(lines[..i]) || ParseLine(lines[i]).EmptyData?)
  {
    assert lines[..i + 1][..i] == lines[..i];
    var dirs := ConfigDirs(lines[..i]);
    if ParseLine(lines[i]).DataDir? {
      assert ConfigDirs(lines[..i + 1]) == dirs + [ParseLine(lines[i]).dir];
      assert (dirs + [ParseLine(lines[i]).dir])[..|dirs|] == dirs;
    } else {
      assert ConfigDirs(lines[..i + 1]) == dirs;
    }
  }

  /** An empty `data` value among the first `n` lines is one among all of them. */
  lemma {:induction false} HasEmptyDataPrefix(lines: seq<string>, n: nat)
    requires n <= |lines| && HasEmptyData(lines[..n])
    ensures HasEmptyData(lines)
    decreases |lines| - n
  {
    if n < |lines| {
      assert lines[..n + 1][..n] == lines[..n];
      HasEmptyDataPrefix(lines, n + 1);
    } else {
      assert lines[..n] == lines;
    }
  }

  /**
   * The inner loops of `find_mods` over the files one directory walk reports:
   * each plugin file's joined path is added under its name.
   */
  method IndexWalk(mods: map<string, set<string>>, files: seq<(string, string)>, join: Joiner,
                   ghost before: seq<(string, string)>)
    returns (updated: map<string, set<string>>)
    requires mods == IndexOf(before, join)
    ensures updated == IndexOf(before + files, join)
  {
    updated := mods;
    assert before + files[..0] == before;
    for j := 0 to |files|
      invariant updated == IndexOf(before + files[..j], join)
    {
      var (basedir, filename) := files[j];
      IndexStep(before + files[..j], files[j], join);
      AddFileUpdate(updated, basedir, filename, join);
      if IsEspName(filename) {
        if filename !in updated {
          updated := updated[filename := {}];
        }
        updated := updated[filename := updated[filename] + {join(basedir, filename)}];
      }
      assert before + files[..j + 1] == (before + files[..j]) + [files[j]];
    }
    assert files[..|files|] == files;
  }

  /**
   * `find_mods`: walks the directory of every `data` line and indexes the
   * plugin files found. A `data` line with an empty value fails the whole call.
   */
  method FindMods(lines: seq<string>, walk: Walker, join: Joiner)
    returns (r: Result<map<string, set<string>>, ConfigError>)
    ensures r.Err? <==> HasEmptyData(lines)
    ensures r.Ok? ==> r.value == IndexOf(WalkAll(ConfigDirs(lines), walk), join)
  {
    var mods: map<string, set<string>> := map[];
    assert lines[..0] == [];
    assert EspNames([]) == {};
    for i := 0 to |lines|
      invariant !HasEmptyData(lines[..i])
      invariant mods == IndexOf(WalkAll(ConfigDirs(lines[..i]), walk), join)
    {
      var kind := ParseLine(lines[i]);
      LineStep(lines, i, walk);
      if kind.EmptyData? {
        HasEmptyDataPrefix(lines, i + 1);
        return Err(EmptyDataValue(lines[i]));
      }
      if kind.DataDir? {
        mods := IndexWalk(mods, walk(kind.dir), join, WalkAll(ConfigDirs(lines[..i]), walk));
      }
    }
    assert lines[..|lines|] == lines;
    return Ok(mods);
  }
}
