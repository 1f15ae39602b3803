/**
 * The mod catalogue on the web: the list page links to one detail page per
 * mod, and a detail page carries a cleaning marker ("Yes"/"No") and the
 * plugin file names. The dirty set is the union of the file names of every
 * detail page whose marker does not say "no".
 *
 * The HTTP client is a parameter `fetch` from a host and a path to the
 * response's status code and decoded body.
 */
module Catalog {
  import opened Wrappers
  import opened Text
  import opened Patterns

  datatype Response = Response(status: int, body: string)

  /** One GET request: host and path to the response. */
  type Fetcher = (string, string) -> Response

  /** A request whose status code is outside the 2xx range, with the path asked for. */
  datatype FetchError = FetchFailed(path: string, status: int)

  predicate Succeeded(r: Response) {
    200 <= r.status < 300
  }

  /** The body of a GET, or the failure for a status outside 2xx. */
  function GetBody(fetch: Fetcher, host: string, path: string): (r: Result<string, FetchError>)
    ensures r.Ok? <==> 200 <= fetch(host, path).status < 300
    ensures r.Ok? ==> r.value == fetch(host, path).body
    ensures r.Err? ==> r.error == FetchFailed(path, fetch(host, path).status)
  {
    var resp := fetch(host, path);
    if resp.status < 200 || resp.status >= 300 then Err(FetchFailed(path, resp.status)) else Ok(resp.body)
  }

  /** The first element, if there is one. */
  function FirstOrNone<T>(xs: seq<T>): (r: Option<T>)
    ensures r.None? <==> |xs| == 0
    ensures r.Some? ==> r.value == xs[0]
  {
    if |xs| < 1 then None else Some(xs[0])
  }

  /** The plugins a detail page lists as needing a clean. */
  function DirtyEsps(body: string): (esps: seq<string>)
    ensures esps == [] || esps == EspFindall(body)
  {
    var verdict := FirstOrNone(MarkerFindall(body, 0));
    if verdict == None || Lower(verdict.value) == "no" then [] else EspFindall(body)
  }

  /** The marker text reads "no" in any mix of cases. */
  predicate SaysNo(cap: string) {
    |cap| == 2 && cap[0] in "nN" && cap[1] in "oO"
  }

  /** Lower-casing gives exactly "no" for the four spellings of "no" and nothing else. */
  lemma LowerIsNo(s: string)
    ensures Lower(s) == "no" <==> SaysNo(s)
  {
    if Lower(s) == "no" {
      assert LowerChar(s[0]) == 'n' && LowerChar(s[1]) == 'o';
    }
    if SaysNo(s) {
      assert Lower(s)[0] == 'n' && Lower(s)[1] == 'o';
    }
  }

  /** Two leftmost matches from the same start are one match. */
  lemma LeftmostUnique(body: string, i: nat, j1: nat, cap1: string, j2: nat, cap2: string)
    requires LeftmostMarker(body, i, j1, cap1) && LeftmostMarker(body, i, j2, cap2)
    ensures j1 == j2 && cap1 == cap2
  {
    MarkerCaptureUnique(body, j1, cap1, cap2);
  }

  /**
   * A page without any cleaning marker lists nothing; otherwise the leftmost
   * marker decides: "no" in any case lists nothing, anything else lists every
   * file name the page mentions.
   */
  lemma DirtyEspsSpec(body: string)
    ensures NoMarkerFrom(body, 0) ==> DirtyEsps(body) == []
    ensures forall j: nat, cap :: LeftmostMarker(body, 0, j, cap) ==>
      DirtyEsps(body) == (if SaysNo(cap) then [] else EspFindall(body))
  {
    MarkerFindallFirst(body, 0);
    forall j: nat, cap | LeftmostMarker(body, 0, j, cap)
      ensures DirtyEsps(body) == (if SaysNo(cap) then [] else EspFindall(body))
    {
      var first := MarkerFindall(body, 0)[0];
      var j0 :| LeftmostMarker(body, 0, j0, first);
      LeftmostUnique(body, 0, j, cap, j0, first);
      LowerIsNo(cap);
    }
  }

  /** One detail page: its dirty plugins, or the failed request. */
  function GetDirtyEsps(fetch: Fetcher, host: string, path: string): (r: Result<seq<string>, FetchError>)
    ensures r.Ok? <==> Succeeded(fetch(host, path))
    ensures r.Ok? ==> r.value == DirtyEsps(fetch(host, path).body)
    ensures r.Err? ==> r.error == FetchFailed(path, fetch(host, path).status)
  {
    match GetBody(fetch, host, path)
    case Ok(body) => Ok(DirtyEsps(body))
    case Err(e) => Err(e)
  }

  /**
   * The detail pages fetched one by one, in link order; the first failing
   * request ends the download.
   */
  function PageResults(fetch: Fetcher, host: string, paths: seq<string>): (r: Result<seq<seq<string>>, FetchError>)
    ensures r.Ok? <==> forall k :: 0 <= k < |paths| ==> Succeeded(fetch(host, paths[k]))
    ensures r.Ok? ==> |r.value| == |paths|
    ensures r.Err? ==> r.error.path in paths && !Succeeded(fetch(host, r.error.path))
    ensures r.Err? ==> r.error == FetchFailed(r.error.path, fetch(host, r.error.path).status)
    decreases |paths|
  {
    if paths == [] then Ok([])
    else match GetDirtyEsps(fetch, host, paths[0])
      case Err(e) => Err(e)
      case Ok(esps) =>
        match PageResults(fetch, host, paths[1..])
        case Err(e) => Err(e)
        case Ok(rest) => Ok([esps] + rest)
  }

  /** The `k`-th page's result is the dirty list of the `k`-th detail page. */
  lemma {:induction false} PageResultsAt(fetch: Fetcher, host: string, paths: seq<string>, k: nat)
    requires PageResults(fetch, host, paths).Ok? && k < |paths|
    ensures PageResults(fetch, host, paths).value[k] == DirtyEsps(fetch(host, paths[k]).body)
    decreases |paths|
  {
    if k > 0 {
      PageResultsAt(fetch, host, paths[1..], k - 1);
      assert paths[1..][k - 1] == paths[k];
    }
  }

  /** The elements of a list, as a set. */
  function Elements(xs: seq<string>): (r: set<string>)
    ensures forall x :: x in r <==> x in xs
  {
    set x | x in xs
  }

  /** The union of all the lists, taken in order. */
  function UnionAll(xss: seq<seq<string>>): (r: set<string>)
    decreases |xss|
  {
    if xss == [] then {} else UnionAll(xss[..|xss| - 1]) + Elements(xss[|xss| - 1])
  }

  /** A name is in the union exactly when one of the lists holds it. */
  lemma {:induction false} UnionAllMembers(xss: seq<seq<string>>, x: string)
    ensures x in UnionAll(xss) <==> exists k :: 0 <= k < |xss| && x in xss[k]
    decreases |xss|
  {
    if xss != [] {
      var init := xss[..|xss| - 1];
      UnionAllMembers(init, x);
      if x in UnionAll(init) {
        var k :| 0 <= k < |init| && x in init[k];
        assert xss[k] == init[k];
      }
      if exists k :: 0 <= k < |xss| && x in xss[k] {
        var k :| 0 <= k < |xss| && x in xss[k];
        if k < |xss| - 1 {
          assert init[k] == xss[k];
        }
      }
    }
  }

  /** The list page or one of the detail pages it links to cannot be fetched. */
  predicate CatalogFails(fetch: Fetcher, host: string, listPath: string) {
    var list := fetch(host, listPath);
    !Succeeded(list) || exists p :: p in ModPaths(list.body) && !Succeeded(fetch(host, p))
  }

  /** A name is dirty when some detail page the list links to lists it. */
  ghost predicate ListedDirty(fetch: Fetcher, host: string, listPath: string, x: string) {
    var paths := ModPaths(fetch(host, listPath).body);
    exists k :: 0 <= k < |paths| && x in DirtyEsps(fetch(host, paths[k]).body)
  }

  /**
   * Every dirty name is a greedy match of the file-name pattern: it ends in
   * `.esp` exactly (lower case), has a character before it and holds no `>`.
   */
  lemma ListedDirtyShape(fetch: Fetcher, host: string, listPath: string, x: string)
    requires ListedDirty(fetch, host, listPath, x)
    ensures |x| >= 5 && x[|x| - 4..] == EspSuffix && '>' !in x
  {
    var paths := ModPaths(fetch(host, listPath).body);
    var k :| 0 <= k < |paths| && x in DirtyEsps(fetch(host, paths[k]).body);
    DirtyEspShape(fetch(host, paths[k]).body, x);
  }

  /** A name a page lists as dirty is one of its greedy file-name matches. */
  lemma DirtyEspShape(body: string, x: string)
    requires x in DirtyEsps(body)
    ensures |x| >= 5 && x[|x| - 4..] == EspSuffix && '>' !in x
  {
    var names := EspFindall(body);
    assert x in names;
    var k :| 0 <= k < |names| && names[k] == x;
    EspFindallAt(body, k);
  }

  /** The failure of the whole download is the failure of the list page or of a linked page. */
  lemma CatalogFailsIff(fetch: Fetcher, host: string, listPath: string)
    ensures CatalogFails(fetch, host, listPath) <==>
      GetBody(fetch, host, listPath).Err? ||
      PageResults(fetch, host, ModPaths(fetch(host, listPath).body)).Err?
  {
    var paths := ModPaths(fetch(host, listPath).body);
    if PageResults(fetch, host, paths).Err? {
      var k :| 0 <= k < |paths| && !Succeeded(fetch(host, paths[k]));
      assert paths[k] in paths;
    }
  }

  /** The union of the page results holds exactly the names some linked page lists. */
  lemma DirtySetMembers(fetch: Fetcher, host: string, listPath: string, espss: seq<seq<string>>)
    requires PageResults(fetch, host, ModPaths(fetch(host, listPath).body)) == Ok(espss)
    ensures forall x :: x in UnionAll(espss) <==> ListedDirty(fetch, host, listPath, x)
  {
    forall x ensures x in UnionAll(espss) <==> ListedDirty(fetch, host, listPath, x) {
      UnionAllMembers(espss, x);
      if x in UnionAll(espss) {
        UnionedIsListed(fetch, host, listPath, espss, x);
      }
      if ListedDirty(fetch, host, listPath, x) {
        ListedIsUnioned(fetch, host, listPath, espss, x);
      }
    }
  }

  lemma UnionedIsListed(fetch: Fetcher, host: string, listPath: string, espss: seq<seq<string>>, x: string)
    requires PageResults(fetch, host, ModPaths(fetch(host, listPath).body)) == Ok(espss)
    requires exists k :: 0 <= k < |espss| && x in espss[k]
    ensures ListedDirty(fetch, host, listPath, x)
  {
    var modPaths := ModPaths(fetch(host, listPath).body);
    var k :| 0 <= k < |espss| && x in espss[k];
    PageResultsAt(fetch, host, modPaths, k);
  }

  lemma ListedIsUnioned(fetch: Fetcher, host: string, listPath: string, espss: seq<seq<string>>, x: string)
    requires PageResults(fetch, host, ModPaths(fetch(host, listPath).body)) == Ok(espss)
    requires ListedDirty(fetch, host, listPath, x)
    ensures exists k :: 0 <= k < |espss| && x in espss[k]
  {
    var modPaths := ModPaths(fetch(host, listPath).body);
    var k :| 0 <= k < |modPaths| && x in DirtyEsps(fetch(host, modPaths[k]).body);
    PageResultsAt(fetch, host, modPaths, k);
    assert x in espss[k];
  }

  /** The loops of `download_dirty_mods` that add every listed name to the dirty set. */
  method CollectDirty(espss: seq<seq<string>>) returns (dirtyMods: set<string>)
    ensures dirtyMods == UnionAll(espss)
  {
    dirtyMods := {};
    for k := 0 to |espss|
      invariant dirtyMods == UnionAll(espss[..k])
    {
      var esps := espss[k];
      for j := 0 to |esps|
        invariant dirtyMods == UnionAll(espss[..k]) + Elements(esps[..j])
      {
        dirtyMods := dirtyMods + {esps[j]};
        assert Elements(esps[..j + 1]) == Elements(esps[..j]) + {esps[j]} by {
          assert esps[..j + 1] == esps[..j] + [esps[j]];
        }
      }
      assert espss[..k + 1][..k] == espss[..k];
      assert esps[..|esps|] == esps;
    }
    assert espss[..|espss|] == espss;
  }

  /**
   * The list page, then every detail page it links to, then the union of the
   * dirty plugins they list. Fails exactly when one of the requests fails;
   * otherwise the result holds exactly the names some linked page lists, in
   * whatever order the pages come back.
   */
  method DownloadDirtyMods(fetch: Fetcher, host: string, listPath: string)
    returns (r: Result<set<string>, FetchError>)
    ensures r.Err? <==> CatalogFails(fetch, host, listPath)
    ensures r.Ok? ==> forall x :: x in r.value <==> ListedDirty(fetch, host, listPath, x)
  {
    CatalogFailsIff(fetch, host, listPath);
    var list := GetBody(fetch, host, listPath);
    if list.Err? {
      return Err(list.error);
    }
    var modPaths := ModPaths(list.value);
    var pages := PageResults(fetch, host, modPaths);
    if pages.Err? {
      return Err(pages.error);
    }
    var dirtyMods := CollectDirty(pages.value);
    DirtySetMembers(fetch, host, listPath, pages.value);
    return Ok(dirtyMods);
  }
}
