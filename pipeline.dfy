/**
 * The whole run: index the installed plugins from the configuration, fetch
 * the dirty set from the mod list, then clean every installed copy of every
 * plugin whose file name is in the dirty set.
 *
 * Dictionary and set iteration orders are not fixed by the model: the loops
 * pick an arbitrary remaining key and an arbitrary remaining path, so what is
 * proved holds for every order.
 */
module Pipeline {
  import opened Wrappers
  import opened Config
  import opened Catalog
  import opened Cleaner

  /** The plugin names among `keys` that are dirty and have `p` as an installed copy. */
  function Holders(mods: map<string, set<string>>, dirty: set<string>, keys: set<string>, p: string): set<string> {
    set name | name in keys && name in mods && name in dirty && p in mods[name]
  }

  /** Everything written while cleaning the paths in order. */
  function Reports(paths: seq<string>, tes3cmd: string, run: Runner): seq<OutLine>
    decreases |paths|
  {
    if paths == [] then []
    else
      var last := paths[|paths| - 1];
      Reports(paths[..|paths| - 1], tes3cmd, run) + Report(last, run(tes3cmd, last))
  }

  /** Taking one more plugin name into account adds it as a holder of `p` exactly when it is dirty and holds `p`. */
  lemma HoldersStep(mods: map<string, set<string>>, dirty: set<string>, done: set<string>, name: string, p: string)
    requires name !in done
    ensures |Holders(mods, dirty, done + {name}, p)|
      == |Holders(mods, dirty, done, p)| + (if name in mods && name in dirty && p in mods[name] then 1 else 0)
  {
    if name in mods && name in dirty && p in mods[name] {
      assert Holders(mods, dirty, done + {name}, p) == Holders(mods, dirty, done, p) + {name};
    } else {
      assert Holders(mods, dirty, done + {name}, p) == Holders(mods, dirty, done, p);
    }
  }

  /** One more cleaned path appends its report. */
  lemma ReportsStep(paths: seq<string>, p: string, tes3cmd: string, run: Runner)
    ensures Reports(paths + [p], tes3cmd, run) == Reports(paths, tes3cmd, run) + Report(p, run(tes3cmd, p))
  {
    assert (paths + [p])[..|paths|] == paths;
  }

  lemma ConcatAssoc(x: seq<OutLine>, y: seq<OutLine>, z: seq<OutLine>)
    ensures (x + y) + z == x + (y + z)
  {
  }

  /** Reports of two runs of cleanings, one after the other. */
  lemma {:induction false} ReportsAppend(a: seq<string>, b: seq<string>, tes3cmd: string, run: Runner)
    ensures Reports(a + b, tes3cmd, run) == Reports(a, tes3cmd, run) + Reports(b, tes3cmd, run)
    decreases |b|
  {
    if b == [] {
      assert a + b == a;
    } else {
      var init := b[..|b| - 1];
      var last := b[|b| - 1];
      var step := Report(last, run(tes3cmd, last));
      assert a + b == (a + init) + [last];
      assert b == init + [last];
      ReportsStep(a + init, last, tes3cmd, run);
      ReportsStep(init, last, tes3cmd, run);
      ReportsAppend(a, init, tes3cmd, run);
      var ra, ri := Reports(a, tes3cmd, run), Reports(init, tes3cmd, run);
      assert Reports(a + b, tes3cmd, run) == (ra + ri) + step;
      assert Reports(b, tes3cmd, run) == ri + step;
      ConcatAssoc(ra, ri, step);
    }
  }

  /**
   * The inner loop: clean every installed copy of one plugin name, each
   * exactly once, in an arbitrary order.
   */
  method CleanPaths(espPaths: set<string>, tes3cmd: string, run: Runner)
    returns (invoked: seq<string>, out: seq<OutLine>)
    ensures forall p :: multiset(invoked)[p] == if p in espPaths then 1 else 0
    ensures out == Reports(invoked, tes3cmd, run)
  {
    invoked := [];
    out := [];
    var todo := espPaths;
    while todo != {}
      invariant todo <= espPaths
      invariant forall p :: multiset(invoked)[p] == if p in espPaths - todo then 1 else 0
      invariant out == Reports(invoked, tes3cmd, run)
      decreases todo
    {
      var espPath :| espPath in todo;
      var lines := Clean(tes3cmd, espPath, run);
      ReportsStep(invoked, espPath, tes3cmd, run);
      invoked := invoked + [espPath];
      out := out + lines;
      todo := todo - {espPath};
    }
  }

  /**
   * The matching loop: for every indexed plugin name that is in the dirty set,
   * clean each of its installed copies. Each path is cleaned once for every
   * dirty name it is indexed under, and nothing else is cleaned; the output is
   * the reports of the cleanings in the order they ran.
   */
  method CleanMatching(mods: map<string, set<string>>, dirty: set<string>, tes3cmd: string, run: Runner)
    returns (invoked: seq<string>, out: seq<OutLine>)
    ensures forall p :: multiset(invoked)[p] == |Holders(mods, dirty, mods.Keys, p)|
    ensures out == Reports(invoked, tes3cmd, run)
  {
    invoked := [];
    out := [];
    var names := mods.Keys;
    ghost var doneNames: set<string> := {};
    while names != {}
      invariant names + doneNames == mods.Keys && names !! doneNames
      invariant forall p :: multiset(invoked)[p] == |Holders(mods, dirty, doneNames, p)|
      invariant out == Reports(invoked, tes3cmd, run)
      decreases names
    {
      var espFilename :| espFilename in names;
      forall p ensures |Holders(mods, dirty, doneNames + {espFilename}, p)|
        == |Holders(mods, dirty, doneNames, p)| + (if espFilename in dirty && p in mods[espFilename] then 1 else 0)
      {
        HoldersStep(mods, dirty, doneNames, espFilename, p);
      }
      if espFilename in dirty {
        var cleaned, lines := CleanPaths(mods[espFilename], tes3cmd, run);
        ReportsAppend(invoked, cleaned, tes3cmd, run);
        invoked := invoked + cleaned;
        out := out + lines;
      }
      names := names - {espFilename};
      doneNames := doneNames + {espFilename};
    }
  }

  /**
   * Where a path is installed under one plugin name only (as when joining a
   * directory and a file name gives distinct paths for distinct names), it is
   * cleaned exactly once if that name is dirty and never otherwise.
   */
  lemma CleanedOnce(mods: map<string, set<string>>, dirty: set<string>, p: string)
    requires forall n, m :: n in mods && m in mods && p in mods[n] && p in mods[m] ==> n == m
    ensures |Holders(mods, dirty, mods.Keys, p)| == if exists n :: n in mods && n in dirty && p in mods[n] then 1 else 0
  {
    var h := Holders(mods, dirty, mods.Keys, p);
    if exists n :: n in mods && n in dirty && p in mods[n] {
      var n :| n in mods && n in dirty && p in mods[n];
      assert h == {n};
    } else {
      assert h == {};
    }
  }

  datatype RunError = ConfigFailed(config: ConfigError) | CatalogFailed(fetch: FetchError)

  /** A completed run: the dirty set, the paths cleaned in order, and what was written. */
  datatype Cleaning = Cleaning(dirty: set<string>, invoked: seq<string>, output: seq<OutLine>)

  /**
   * The program: the configuration is read first, and an empty `data=` value
   * stops the run; then the mod list and its detail pages are fetched, and a
   * failed request stops the run; then the matching installed plugins are
   * cleaned.
   */
  method Run(cfgLines: seq<string>, walk: Walker, join: Joiner, fetch: Fetcher, host: string, listPath: string,
             tes3cmd: string, run: Runner)
    returns (r: Result<Cleaning, RunError>)
    ensures r.Err? <==> HasEmptyData(cfgLines) || CatalogFails(fetch, host, listPath)
    ensures r.Err? && HasEmptyData(cfgLines) ==> r.error.ConfigFailed?
    ensures r.Ok? ==> forall x :: x in r.value.dirty <==> ListedDirty(fetch, host, listPath, x)
    ensures r.Ok? ==> var mods := IndexOf(WalkAll(ConfigDirs(cfgLines), walk), join);
      forall p :: multiset(r.value.invoked)[p] == |Holders(mods, r.value.dirty, mods.Keys, p)|
    ensures r.Ok? ==> r.value.output == Reports(r.value.invoked, tes3cmd, run)
  {
    var mods := FindMods(cfgLines, walk, join);
    if mods.Err? {
      return Err(ConfigFailed(mods.error));
    }
    var dirtyModsInList := DownloadDirtyMods(fetch, host, listPath);
    if dirtyModsInList.Err? {
      return Err(CatalogFailed(dirtyModsInList.error));
    }
    var invoked, out := CleanMatching(mods.value, dirtyModsInList.value, tes3cmd, run);
    return Ok(Cleaning(dirtyModsInList.value, invoked, out));
  }
}
