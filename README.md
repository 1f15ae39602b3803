# openmw_cleaner, modelled in Dafny

`cleaner.py` indexes every file whose name ends in `esp` (in any case, no dot
needed) under the `data=` directories of an OpenMW configuration,
subdirectories included, whether or not the game loads it. It then asks the
modding-openmw.com mod list which plugins need cleaning, and runs
`tes3cmd clean` on every indexed copy of those plugins. This project
models that core and proves what it does:

- `Config` covers `find_mods`. It classifies each configuration line, reads the
  directory of every `data=` line, and indexes the walked plugin files by file
  name. A `data=` line whose value is empty makes the whole call fail, as the
  `IndexError` does in Python.
- `Patterns` covers the three regular expressions, each as its own scanner that
  follows `re.findall`'s leftmost-then-continue rule and the greedy
  backtracking of its pattern:
  - the cleaning marker `<a href="/tips/cleaning-with-tes3cmd/">([yYnN][^<]+)</a>`;
  - the plugin names `[^>]+\.esp`;
  - the detail-page links `"/mods/[^"]+`.
  Each scanner's matches are characterized by lemmas: for the file names and
  the links, the shape, order and coverage of every match; for the marker, the
  attempt at one position and the first capture, the only one
  `get_dirty_esps` reads.
- `Catalog` covers `first_or_none`, `get_dirty_esps` and `download_dirty_mods`:
  - which page bodies list their plugins as dirty;
  - the failure of any request with a status outside 2xx;
  - the dirty set as the union over all linked detail pages.
- `Cleaner` covers `clean`: the lines written for one `tes3cmd clean` run, and
  which stream each goes to.
- `Pipeline` covers `main`'s matching loop and the whole run. Each path is
  cleaned once for every dirty name it is indexed under, and nothing else is
  cleaned, whatever order the dictionary and the sets are iterated in. This
  assumes every `tes3cmd` run returns; see "Left out" for the exceptions that
  end the real loop early.
- `Text` provides the Python string operations the core relies on: `strip`,
  `split`, `lower`, and `'{}'.format` of an `int`.

The outside world is a set of parameters:
- the configuration file's lines;
- `walk` (the `(basedir, filename)` pairs `os.walk` reports for a directory);
- `join` (`os.path.join`);
- `fetch` (host and path to HTTP status and decoded body);
- `run` (tool and plugin path to the finished `tes3cmd` process).

## Model

| member | source | states |
|---|---|---|
| `Text.StripLeftSpec` | cleaner.py:28 | `lstrip` removes exactly the leading whitespace (Python's `isspace` set) and leaves a suffix that starts with a non-space |
| `Text.StripRightSpec` | cleaner.py:28 | `rstrip` removes exactly the trailing whitespace and leaves a prefix that ends with a non-space |
| `Text.BlankIffAllSpace` | cleaner.py:86 | a line strips to `''` exactly when all its characters are whitespace |
| `Text.Lower` | cleaner.py:38 | lower-casing keeps the length and maps each character on its own |
| `Text.Split` | cleaner.py:30 | a split always has at least one piece, and has two or more exactly when the separator occurs |
| `Text.SplitPiecesFree` | cleaner.py:85 | no piece of a split contains the separator |
| `Text.JoinSplit` | cleaner.py:30 | joining the pieces of a split with the separator gives back the string |
| `Text.SplitAfterSeparator` | cleaner.py:30 | the text before the first separator is the first piece, and the rest is split again |
| `Text.SplitNoSeparator` | cleaner.py:30 | a string without the separator splits into itself alone |
| `Text.SplitJoin` | cleaner.py:30 | splitting a join of separator-free pieces gives back the pieces |
| `Text.NatToString` | cleaner.py:91 | a formatted natural number is a non-empty string of digits without a leading zero |
| `Text.NatToStringRoundTrip` | cleaner.py:91 | the digits of a formatted natural number read back as that number |
| `Text.IntToStringRoundTrip` | cleaner.py:91 | a formatted return code is an optional `-` followed by digits and reads back as the code |
| `Config.ParseDataLine` | cleaner.py:28-35 | on a line `data = value` or `data = value = more`, the directory is the stripped text between the first and second `=`, with its quotes removed only when it both starts and ends with `"`; an empty value is the error case |
| `Config.SplitKeyValue` | cleaner.py:30 | the first two pieces of `key=value` or `key=value=more` are `key` and `value` |
| `Config.IgnoredLines` | cleaner.py:29 | blank lines, comments and lines without `=` contribute nothing |
| `Config.OnlyDataKey` | cleaner.py:29-31 | a line contributes only if its first piece strips to `data` |
| `Config.EspNameIff` | cleaner.py:38 | a file is indexed exactly when its last three characters are `e`, `s`, `p` in either case; no dot is required |
| `Config.HasEmptyDataIff` | cleaner.py:32 | the error condition holds exactly when some line is a `data` line with an empty value |
| `Config.WalkAllMembers` | cleaner.py:36-37 | a file is among the walked files exactly when the walk of one of the data directories reports it |
| `Config.IndexOfSpec` | cleaner.py:36-40 | a name is a key exactly when some walked plugin file has that name; its set is non-empty and holds exactly the joined paths of the files with that name |
| `Config.IndexStep` | cleaner.py:37-40 | indexing one more walked file is exactly that one-file update |
| `Config.IndexGrows` | cleaner.py:39-40 | walking more files never removes a key or a path |
| `Config.IndexWalk` | cleaner.py:36-40 | the loop over one walk's files extends the index to cover those files |
| `Config.FindMods` | cleaner.py:24-41 | fails exactly when some `data` value is empty; otherwise returns the index of every file walked under every data directory, in line order |
| `Patterns.MarkerAt` | cleaner.py:43 | a match attempt at a position ends after that position and within the body |
| `Patterns.MarkerAtIff` | cleaner.py:43 | the attempt at a position succeeds with a capture exactly when the pattern read declaratively matches there with that capture: `[yYnN]`, then at least one non-`<` character, then `</a>` |
| `Patterns.MarkerFindallFirst` | cleaner.py:43 | `findall` returns nothing exactly when the pattern matches nowhere; otherwise its first capture is the capture of the leftmost match |
| `Patterns.MarkerCaptureUnique` | cleaner.py:43 | a match position determines its capture |
| `Patterns.LastEspEnd` | cleaner.py:44 | greedy backtracking finds the last place in a range where `.esp` ends, or reports that there is none |
| `Patterns.EspAt` | cleaner.py:44 | a successful file-name match is at least five characters long |
| `Patterns.EspAtSpan` | cleaner.py:44 | the attempt at a position returns the greedy match there: no `>`, ending in `.esp`, with no later `.esp` before the next `>` |
| `Patterns.EspSpanIsAt` | cleaner.py:44 | conversely, the greedy match at a position is what the attempt there returns, so the attempt succeeds exactly at the greedy matches |
| `Patterns.EspScan` | cleaner.py:44 | every reported span lies after the scan start and within the body, and is at least five characters long |
| `Patterns.EspScanSpan` | cleaner.py:44 | every span the scan reports is a greedy match |
| `Patterns.EspScanOrdered` | cleaner.py:44 | spans come in body order and never overlap |
| `Patterns.EspScanStart` | cleaner.py:44 | each span starts where the scan started or just after a `>` |
| `Patterns.EspScanCovers` | cleaner.py:44 | every `.esp` preceded by a character other than `>` falls inside a reported span |
| `Patterns.EspFindall` | cleaner.py:68 | `findall` returns one name per span |
| `Patterns.EspFindallAt` | cleaner.py:68 | each returned name is the text of its span, is at least five characters, ends in `.esp`, holds no `>`, and starts the body or follows a `>` |
| `Patterns.EspFindallSpec` | cleaner.py:44 | the returned names together: shape, start, order without overlap, and coverage of every `.esp` not right after a `>` |
| `Patterns.LinkAt` | cleaner.py:74 | a link match attempt reaches past `"/mods/` by at least one character |
| `Patterns.LinkScan` | cleaner.py:74 | every link span lies after the scan start and within the body |
| `Patterns.LinkScanSpan` | cleaner.py:74 | every link span starts with `"/mods/` and runs greedily to the next `"` or the end |
| `Patterns.LinkScanOrdered` | cleaner.py:74 | link spans come in body order and never overlap |
| `Patterns.LinkScanFinds` | cleaner.py:74 | every `"/mods/` followed by a character other than `"` starts a reported span |
| `Patterns.ModPaths` | cleaner.py:74 | one path per link span |
| `Patterns.ModPathsSpec` | cleaner.py:74 | each path, with its leading `"` dropped, starts with `/mods/`, has a character after it and holds no `"`; paths come in body order; every qualifying link yields one |
| `Catalog.GetBody` | cleaner.py:55-58 | a body is returned exactly for a 2xx status; otherwise the failure names the path and the status |
| `Catalog.FirstOrNone` | cleaner.py:46-47 | `None` exactly for an empty list, otherwise the first element |
| `Catalog.DirtyEsps` | cleaner.py:63-68 | a page lists either nothing or every file name it mentions |
| `Catalog.LowerIsNo` | cleaner.py:66 | lower-casing gives `no` exactly for `no`, `No`, `nO` and `NO` |
| `Catalog.DirtyEspsSpec` | cleaner.py:63-68 | a page without a marker lists nothing; otherwise the leftmost marker decides: any spelling of "no" lists nothing, any other marker lists every file name on the page |
| `Catalog.GetDirtyEsps` | cleaner.py:63-68 | a detail page either fails with its status or yields its dirty list |
| `Catalog.PageResults` | cleaner.py:77 | the pages all yield results exactly when every request succeeds, with one result per link; a failure names a linked path whose request failed |
| `Catalog.PageResultsAt` | cleaner.py:77 | the k-th result is the dirty list of the k-th linked page |
| `Catalog.Elements` | cleaner.py:79-80 | adding a list's names to a set adds exactly its elements |
| `Catalog.UnionAllMembers` | cleaner.py:78-80 | a name is in the union exactly when one of the page results lists it |
| `Catalog.DirtyEspShape` | cleaner.py:68 | a name a page lists as dirty ends in `.esp`, has a character before it and holds no `>` |
| `Catalog.ListedDirtyShape` | cleaner.py:68 | every dirty name ends in lower-case `.esp`, has a character before it and holds no `>` |
| `Catalog.CatalogFailsIff` | cleaner.py:73-77 | the download fails exactly when the list page or one of its linked pages fails |
| `Catalog.DirtySetMembers` | cleaner.py:77-81 | the union of the page results is exactly the set of names some linked page lists |
| `Catalog.CollectDirty` | cleaner.py:78-80 | the loops that add every listed name build the union of the page results |
| `Catalog.DownloadDirtyMods` | cleaner.py:70-81 | fails exactly when a request fails; otherwise returns exactly the names some linked detail page lists as dirty |
| `Cleaner.EchoAppend` | cleaner.py:85-87 | lines are echoed in input order: the echo of two blocks is the echo of the first followed by the echo of the second |
| `Cleaner.EchoSpec` | cleaner.py:85-87 | exactly the non-blank lines are echoed, each on the given stream |
| `Cleaner.EchoLines` | cleaner.py:85-87 | each echoed line is a single non-blank line of the tool's output |
| `Cleaner.ErrorStatusSpec` | cleaner.py:91 | the error status line carries a code that reads back as the exit status |
| `Cleaner.ReportParts` | cleaner.py:83-94 | the report is the echo of the output, then the status line, then on failure the echo of the errors |
| `Cleaner.ReportOutput` | cleaner.py:85-87 | the report starts with exactly the non-blank lines of the tool's output, each a single line on standard output |
| `Cleaner.ReportStatus` | cleaner.py:88-91 | then comes the status line on standard output: `CLEANING DONE <path>` as the last line on success, otherwise `CLEANING ERROR <code> <path>` with a code that reads back as the exit status |
| `Cleaner.ReportErrors` | cleaner.py:90-94 | after the status line come only lines on standard error, and only on failure: exactly the non-blank lines of the tool's error output |
| `Cleaner.Clean` | cleaner.py:83-94 | the statements of `clean` write exactly that report |
| `Pipeline.HoldersStep` | cleaner.py:101-102 | considering one more name adds one holder of a path exactly when that name is dirty and holds the path |
| `Pipeline.ReportsAppend` | cleaner.py:103-104 | the reports of two runs of cleanings are concatenated in order |
| `Pipeline.CleanPaths` | cleaner.py:103-104 | every installed copy of one name is cleaned exactly once, and its reports are written in cleaning order |
| `Pipeline.CleanMatching` | cleaner.py:101-104 | each path is cleaned as many times as there are dirty indexed names holding it, and nothing else is cleaned; the output is the reports in cleaning order |
| `Pipeline.CleanedOnce` | cleaner.py:101-104 | a path held under one name only is cleaned exactly once if that name is dirty, and never otherwise |
| `Pipeline.Run` | cleaner.py:96-104 | the run fails exactly when the configuration has an empty `data` value or a request fails, and the configuration error takes precedence; otherwise the dirty set is exactly what the linked pages list, the cleanings are those of the matching loop over the index of the configured directories, and the output is their reports |

## Left out

- `parse_args` and the check that the configuration file exists: argument parsing and file-system tests are I/O; the configuration arrives as its lines.
- The `GET …`/`GET DONE …` progress lines and the error message of `getbody_or_die`: console output around the network; the failure is kept as the `FetchError` value.
- `sys.exit(5)` in `getbody_or_die`: the model returns an error value instead of ending the process.
- `multiprocessing.Pool.starmap`: the detail pages are fetched one after another, in link order, and the first failing one is reported. The dirty set does not depend on that order. In the real program, `sys.exit` in a worker does not end the parent, so a failing detail page may leave `starmap` waiting; the model treats it as a failure of the download.
- `os.walk`, `open`, `os.path.join`, the HTTPS client, `subprocess.run` and `urlparse`: these are parameters (`walk`, the configuration lines, `join`, `fetch`, `run`, and the host and path of the list URL).
- General regular-expression matching: only the three patterns the core uses are modelled, each by its own scanner.
- Dictionary insertion order and set iteration order: the loops pick an arbitrary remaining key or path, and the contracts hold for every order.
- `Text.Lower`: only ASCII letters are lower-cased. Both comparisons the core makes (`endswith('esp')` and `== 'no'`) give the same answer as Python's full Unicode `lower`.
- Decoding of byte streams (`.decode()`, `encoding='UTF-8'`): bodies and tool output are taken as already-decoded strings. The tool's `stdout` and `stderr` are also taken as already newline-translated, as text mode makes them: `\r\n` and `\r` become `\n`, so a `Completed` value holding `\r` is one the real program cannot produce.
- The trailing newline that `print` and `sys.stderr.write('{}\n')` add: an output line is recorded without it, tagged with its stream.
- `Config.IndexWalk`, `Catalog.CollectDirty` and `Pipeline.CleanPaths` are loops of `find_mods`, `download_dirty_mods` and `main`, written as separate methods.
- `Cleaner.Runner`: always returns a finished process. In the real program `subprocess.run` raises `FileNotFoundError` when `tes3cmd` is missing, and strict UTF-8 decoding raises `UnicodeDecodeError` on output that is not UTF-8; either exception ends `main`'s loop, and the remaining paths are not cleaned. `Cleaner.Clean`, `Pipeline.CleanPaths`, `Pipeline.CleanMatching` and `Pipeline.Run` hold only for runs that return.
- `Catalog.Fetcher`: always returns a status and a decoded body. In the real program `.decode()` raises on a page that is not UTF-8; in a pool worker the exception is re-raised by `starmap` in the parent and the run ends with a traceback, and a failed connection raises likewise. The model has no such failure: only a status outside 2xx fails a request.
