/**
 * The three fixed regular expressions of the tool, each written as a scanner
 * that follows what Python's `re` engine does for that one pattern:
 *
 *   - the status marker `<a href="/tips/cleaning-with-tes3cmd/">([yYnN][^<]+)</a>`,
 *   - the plugin file name `[^>]+\.esp`,
 *   - the detail-page link `"/mods/[^"]+`.
 *
 * `findall` tries each position from left to right; after a match it goes on
 * from the match's end, otherwise from the next position.
 */
module Patterns {
  import opened Wrappers

  const MarkerOpen: string := "<a href=\"/tips/cleaning-with-tes3cmd/\">"
  const MarkerClose: string := "</a>"
  const EspSuffix: string := ".esp"
  const ModsOpen: string := "\"/mods/"

  /** The literal `lit` occurs in `s` at position `i`. */
  predicate HasAt(s: string, i: nat, lit: string) {
    i + |lit| <= |s| && s[i..i + |lit|] == lit
  }

  /** A literal occurs at `i` exactly when each of its characters does. */
  lemma HasAtIff(s: string, i: nat, lit: string)
    ensures HasAt(s, i, lit) <==> i + |lit| <= |s| && forall k :: 0 <= k < |lit| ==> s[i + k] == lit[k]
  {
    if i + |lit| <= |s| && forall k :: 0 <= k < |lit| ==> s[i + k] == lit[k] {
      assert s[i..i + |lit|] == lit;
    }
  }

  /** Two literals side by side form their concatenation, and back. */
  lemma HasAtConcat(s: string, i: nat, a: string, b: string)
    ensures HasAt(s, i, a + b) <==> HasAt(s, i, a) && HasAt(s, i + |a|, b)
  {
    HasAtIff(s, i, a + b);
    HasAtIff(s, i, a);
    HasAtIff(s, i + |a|, b);
    if HasAt(s, i, a) && HasAt(s, i + |a|, b) {
      forall k | 0 <= k < |a + b| ensures s[i + k] == (a + b)[k] {
        if k >= |a| {
          assert s[i + k] == s[(i + |a|) + (k - |a|)];
        }
      }
    }
  }

  /** Where a greedy run of characters other than `stop`, starting at `i`, ends. */
  function RunEnd(s: string, i: nat, stop: char): (j: nat)
    requires i <= |s|
    ensures i <= j <= |s|
    ensures forall k :: i <= k < j ==> s[k] != stop
    ensures j == |s| || s[j] == stop
    decreases |s| - i
  {
    if i == |s| || s[i] == stop then i else RunEnd(s, i + 1, stop)
  }

  /** A run ending is the same from any position inside the run. */
  lemma {:induction false} RunEndFrom(s: string, i: nat, m: nat, stop: char)
    requires i <= |s| && i <= m <= RunEnd(s, i, stop)
    ensures RunEnd(s, m, stop) == RunEnd(s, i, stop)
    decreases m - i
  {
    if i < m {
      RunEndFrom(s, i + 1, m, stop);
    }
  }

  /** The run ending is the first `stop` character at or after `i`. */
  lemma RunEndAt(s: string, i: nat, j: nat, stop: char)
    requires i <= j <= |s|
    requires forall k :: i <= k < j ==> s[k] != stop
    requires j == |s| || s[j] == stop
    ensures RunEnd(s, i, stop) == j
  {
  }

  // ---------------------------------------------------------------------------
  // The status marker

  /**
   * The marker pattern tried at position `i`: its capture and where the match
   * ends. `[^<]+` is greedy and the closing `</a>` starts with `<`, so the only
   * candidate is the longest run without `<`.
   */
  function MarkerAt(body: string, i: nat): (r: Option<(string, nat)>)
    requires i <= |body|
    ensures r.Some? ==> i < r.value.1 <= |body|
  {
    var c := i + |MarkerOpen|;
    if HasAt(body, i, MarkerOpen) && c < |body| && body[c] in "yYnN" then
      var j := RunEnd(body, c + 1, '<');
      if c + 1 < j && HasAt(body, j, MarkerClose) then Some((body[c..j], j + |MarkerClose|)) else None
    else None
  }

  /** The marker pattern matches at `i` with capture `cap` (the pattern read declaratively). */
  predicate MarkerMatch(body: string, i: nat, cap: string) {
    && |cap| >= 2 && cap[0] in "yYnN"
    && (forall k :: 1 <= k < |cap| ==> cap[k] != '<')
    && HasAt(body, i, MarkerOpen + cap + MarkerClose)
  }

  /** The scanner's attempt at `i` succeeds with `cap` exactly when the pattern matches there with `cap`. */
  lemma MarkerAtIff(body: string, i: nat, cap: string)
    requires i <= |body|
    ensures MarkerMatch(body, i, cap) <==> MarkerAt(body, i).Some? && MarkerAt(body, i).value.0 == cap
  {
    HasAtConcat(body, i, MarkerOpen + cap, MarkerClose);
    HasAtConcat(body, i, MarkerOpen, cap);
    if MarkerAt(body, i).Some? && MarkerAt(body, i).value.0 == cap {
      MarkerAtSound(body, i);
    }
    if MarkerMatch(body, i, cap) {
      MarkerAtComplete(body, i, cap);
    }
  }

  lemma MarkerAtSound(body: string, i: nat)
    requires i <= |body| && MarkerAt(body, i).Some?
    ensures var cap := MarkerAt(body, i).value.0;
      && |cap| >= 2 && cap[0] in "yYnN"
      && (forall k :: 1 <= k < |cap| ==> cap[k] != '<')
      && HasAt(body, i, MarkerOpen) && HasAt(body, i + |MarkerOpen|, cap)
      && HasAt(body, i + |MarkerOpen| + |cap|, MarkerClose)
  {
    var c := i + |MarkerOpen|;
    var j := RunEnd(body, c + 1, '<');
    var cap := body[c..j];
    assert cap[0] == body[c];
    forall k | 1 <= k < |cap| ensures cap[k] != '<' {
      assert cap[k] == body[c + k];
    }
  }

  lemma MarkerAtComplete(body: string, i: nat, cap: string)
    requires i <= |body|
    requires |cap| >= 2 && cap[0] in "yYnN"
    requires forall k :: 1 <= k < |cap| ==> cap[k] != '<'
    requires HasAt(body, i, MarkerOpen) && HasAt(body, i + |MarkerOpen|, cap)
    requires HasAt(body, i + |MarkerOpen| + |cap|, MarkerClose)
    ensures MarkerAt(body, i) == Some((cap, i + |MarkerOpen| + |cap| + |MarkerClose|))
  {
    var c := i + |MarkerOpen|;
    var j := c + |cap|;
    assert body[c] == body[c..j][0] == cap[0];
    forall k | c + 1 <= k < j ensures body[k] != '<' {
      assert body[k] == body[c..j][k - c];
    }
    assert body[j] == body[j..j + |MarkerClose|][0] == '<';
    RunEndAt(body, c + 1, j, '<');
  }

  /** The captures of the cleaning-marker pattern's matches in `body[i..]`, in order. */
  function MarkerFindall(body: string, i: nat): seq<string>
    requires i <= |body|
    decreases |body| - i
  {
    if i == |body| then []
    else match MarkerAt(body, i)
      case Some((cap, e)) => [cap] + MarkerFindall(body, e)
      case None => MarkerFindall(body, i + 1)
  }

  /** The pattern matches nowhere at or after `i`. */
  ghost predicate NoMarkerFrom(body: string, i: nat) {
    forall j: nat, cap :: i <= j ==> !MarkerMatch(body, j, cap)
  }

  /** The pattern matches at `j` with `cap`, and nowhere between `i` and `j`. */
  ghost predicate LeftmostMarker(body: string, i: nat, j: nat, cap: string) {
    && i <= j && MarkerMatch(body, j, cap)
    && forall j': nat, cap' :: i <= j' < j ==> !MarkerMatch(body, j', cap')
  }

  /**
   * `findall` finds nothing exactly when the pattern matches nowhere, and its
   * first capture is the capture of the leftmost match.
   */
  lemma {:induction false} MarkerFindallFirst(body: string, i: nat)
    requires i <= |body|
    ensures MarkerFindall(body, i) == [] <==> NoMarkerFrom(body, i)
    ensures MarkerFindall(body, i) != [] ==> exists j :: LeftmostMarker(body, i, j, MarkerFindall(body, i)[0])
    decreases |body| - i
  {
    if i < |body| {
      match MarkerAt(body, i)
      case Some((cap, e)) =>
        MarkerAtIff(body, i, cap);
        assert LeftmostMarker(body, i, i, cap);
      case None =>
        forall cap ensures !MarkerMatch(body, i, cap) {
          MarkerAtIff(body, i, cap);
        }
        MarkerFindallFirst(body, i + 1);
        if MarkerFindall(body, i) != [] {
          var j :| LeftmostMarker(body, i + 1, j, MarkerFindall(body, i)[0]);
          assert LeftmostMarker(body, i, j, MarkerFindall(body, i)[0]);
        }
    }
  }

  /** A match position determines its capture. */
  lemma MarkerCaptureUnique(body: string, j: nat, cap1: string, cap2: string)
    requires MarkerMatch(body, j, cap1) && MarkerMatch(body, j, cap2)
    ensures cap1 == cap2
  {
    MarkerAtIff(body, j, cap1);
    MarkerAtIff(body, j, cap2);
  }

  // ---------------------------------------------------------------------------
  // Plugin file names

  /** The literal `.esp` ends at position `e`. */
  predicate EspEndsAt(s: string, e: int) {
    4 <= e <= |s| && s[e - 4] == '.' && s[e - 3] == 'e' && s[e - 2] == 's' && s[e - 1] == 'p'
  }

  /** The greatest position in `[lo, e]` where `.esp` ends: greedy backtracking from the right. */
  function LastEspEnd(s: string, lo: nat, e: nat): (r: Option<nat>)
    requires e <= |s|
    ensures r.Some? ==> lo <= r.value <= e && EspEndsAt(s, r.value)
    ensures r.Some? ==> forall x :: r.value < x <= e ==> !EspEndsAt(s, x)
    ensures r.None? ==> forall x :: lo <= x <= e ==> !EspEndsAt(s, x)
    decreases e
  {
    if e < lo then None
    else if EspEndsAt(s, e) then Some(e)
    else if e == 0 then None
    else LastEspEnd(s, lo, e - 1)
  }

  /**
   * The file-name pattern tried at position `i`: `[^>]+` runs to the next `>`
   * and gives back characters until `.esp` follows, keeping at least one.
   */
  function EspAt(body: string, i: nat): (r: Option<nat>)
    requires i <= |body|
    ensures r.Some? ==> i + 5 <= r.value <= |body|
  {
    LastEspEnd(body, i + 5, RunEnd(body, i, '>'))
  }

  /**
   * `body[s..e]` is a match of the pattern that the greedy engine picks at `s`:
   * at least one character, no `>`, ending in `.esp`, and no later `.esp` before
   * the next `>`.
   */
  predicate EspSpan(body: string, s: nat, e: nat) {
    && s <= |body|
    && s + 5 <= e <= RunEnd(body, s, '>')
    && EspEndsAt(body, e)
    && forall x :: e < x <= RunEnd(body, s, '>') ==> !EspEndsAt(body, x)
  }

  /** The `(start, end)` positions of the file-name pattern's matches in `body[i..]`. */
  function EspScan(body: string, i: nat): (spans: seq<(nat, nat)>)
    requires i <= |body|
    ensures forall k :: 0 <= k < |spans| ==> i <= spans[k].0 && spans[k].0 + 5 <= spans[k].1 <= |body|
    decreases |body| - i
  {
    if i == |body| then []
    else match EspAt(body, i)
      case Some(e) => [(i, e)] + EspScan(body, e)
      case None => EspScan(body, i + 1)
  }

  /** When the attempt at `i` succeeds with end `e`, `body[i..e]` is the greedy match there. */
  lemma EspAtSpan(body: string, i: nat)
    requires i <= |body| && EspAt(body, i).Some?
    ensures EspSpan(body, i, EspAt(body, i).value)
  {
  }

  /** Each span the scan reports is a greedy match of the pattern. */
  lemma {:induction false} EspScanSpan(body: string, i: nat, k: nat)
    requires i <= |body| && k < |EspScan(body, i)|
    ensures EspSpan(body, EspScan(body, i)[k].0, EspScan(body, i)[k].1)
    decreases |body| - i
  {
    match EspAt(body, i)
    case Some(e) =>
      assert EspScan(body, i) == [(i, e)] + EspScan(body, e);
      if k == 0 {
        EspAtSpan(body, i);
      } else {
        EspScanSpan(body, e, k - 1);
      }
    case None =>
      assert EspScan(body, i) == EspScan(body, i + 1);
      EspScanSpan(body, i + 1, k);
  }

  /** Of two spans the earlier one ends before the later one starts. */
  lemma {:induction false} EspScanOrdered(body: string, i: nat, k: nat, l: nat)
    requires i <= |body| && k < l < |EspScan(body, i)|
    ensures EspScan(body, i)[k].1 <= EspScan(body, i)[l].0
    decreases |body| - i
  {
    match EspAt(body, i)
    case Some(e) =>
      assert EspScan(body, i) == [(i, e)] + EspScan(body, e);
      if k > 0 {
        EspScanOrdered(body, e, k - 1, l - 1);
      }
    case None =>
      assert EspScan(body, i) == EspScan(body, i + 1);
      EspScanOrdered(body, i + 1, k, l);
  }

  /** Right after a match the next attempt fails: the match already took the last `.esp` before the `>`. */
  lemma EspAtAfterMatch(body: string, i: nat)
    requires i <= |body| && EspAt(body, i).Some?
    ensures EspAt(body, EspAt(body, i).value).None?
  {
    var e := EspAt(body, i).value;
    RunEndFrom(body, i, e, '>');
  }

  /** A failed attempt stays failed one character on, unless that character is a `>`. */
  lemma EspAtNoneStep(body: string, i: nat)
    requires i < |body| && EspAt(body, i).None? && body[i] != '>'
    ensures EspAt(body, i + 1).None?
  {
    assert RunEnd(body, i + 1, '>') == RunEnd(body, i, '>');
  }

  /** Every span starts at `i` itself or just after a `>`. */
  lemma {:induction false} EspScanStart(body: string, i: nat, k: nat)
    requires i <= |body| && k < |EspScan(body, i)|
    ensures var s := EspScan(body, i)[k].0;
      s == i || (i < s && body[s - 1] == '>')
    decreases |body| - i, 1
  {
    match EspAt(body, i)
    case Some(e) =>
      assert EspScan(body, i) == [(i, e)] + EspScan(body, e);
      if k > 0 {
        EspAtAfterMatch(body, i);
        EspScanStartPast(body, e, k - 1);
        assert EspScan(body, i)[k] == EspScan(body, e)[k - 1];
      }
    case None =>
      EspScanStartPast(body, i, k);
  }

  /** Where the attempt at `i` succeeds, the scan reports it and goes on from its end. */
  lemma EspScanTake(body: string, i: nat)
    requires i <= |body| && EspAt(body, i).Some?
    ensures EspScan(body, i) == [(i, EspAt(body, i).value)] + EspScan(body, EspAt(body, i).value)
  {
  }

  /** Where the attempt at `i` fails, the scan moves on one character. */
  lemma EspScanSkip(body: string, i: nat)
    requires i < |body| && EspAt(body, i).None?
    ensures EspScan(body, i) == EspScan(body, i + 1)
  {
  }

  /** Where the attempt at `i` fails, every span starts just after a `>` beyond `i`. */
  lemma {:induction false} EspScanStartPast(body: string, i: nat, k: nat)
    requires i <= |body| && k < |EspScan(body, i)| && EspAt(body, i).None?
    ensures var s := EspScan(body, i)[k].0;
      i < s && body[s - 1] == '>'
    decreases |body| - i, 0
  {
    EspScanSkip(body, i);
    if body[i] == '>' {
      EspScanStart(body, i + 1, k);
    } else {
      EspAtNoneStep(body, i);
      EspScanStartPast(body, i + 1, k);
    }
  }

  /** An attempt at `i` reaches at least as far as any `.esp` inside its `>`-free stretch. */
  lemma EspAtReaches(body: string, i: nat, e: nat)
    requires i <= |body| && i + 5 <= e <= RunEnd(body, i, '>') && EspEndsAt(body, e)
    ensures EspAt(body, i).Some? && e <= EspAt(body, i).value
  {
  }

  /** The converse of `EspAtSpan`: the greedy match at `i` is what the attempt there returns. */
  lemma EspSpanIsAt(body: string, i: nat, e: nat)
    requires EspSpan(body, i, e)
    ensures EspAt(body, i) == Some(e)
  {
    EspAtReaches(body, i, e);
    EspAtSpan(body, i);
  }

  /** A `.esp` beyond the stretch from `i`, not just after a `>`, is at least five characters past its end. */
  lemma EspBeyondRun(body: string, i: nat, e: nat)
    requires i + 5 <= e && EspEndsAt(body, e) && body[e - 5] != '>'
    requires RunEnd(body, i, '>') < e
    ensures RunEnd(body, i, '>') + 5 < e
  {
    var j := RunEnd(body, i, '>');
    assert body[j] == '>';
  }

  /**
   * Every `.esp`, ending at `e`, with a character other than `>` just before
   * it lies inside one of the spans.
   */
  lemma {:induction false} EspScanCovers(body: string, i: nat, e: nat) returns (k: nat)
    requires i + 5 <= e && EspEndsAt(body, e) && body[e - 5] != '>'
    ensures k < |EspScan(body, i)| && EspScan(body, i)[k].0 <= e - 4 && e <= EspScan(body, i)[k].1
    decreases |body| - i
  {
    if e <= RunEnd(body, i, '>') {
      EspAtReaches(body, i, e);
      k := 0;
    } else {
      EspBeyondRun(body, i, e);
      match EspAt(body, i)
      case Some(f) =>
        EspScanTake(body, i);
        var l := EspScanCovers(body, f, e);
        k := l + 1;
        assert EspScan(body, i)[k] == EspScan(body, f)[l];
      case None =>
        assert EspScan(body, i) == EspScan(body, i + 1);
        k := EspScanCovers(body, i + 1, e);
    }
  }

  /** The file names the file-name pattern finds in `body`, in order. */
  function EspFindall(body: string): (names: seq<string>)
    ensures |names| == |EspScan(body, 0)|
  {
    var spans := EspScan(body, 0);
    seq(|spans|, k requires 0 <= k < |spans| => body[spans[k].0..spans[k].1])
  }

  /** The text of a greedy match is at least five characters, ends in `.esp` and holds no `>`. */
  lemma EspSpanText(body: string, s: nat, e: nat)
    requires EspSpan(body, s, e)
    ensures var name := body[s..e];
      |name| >= 5 && name[|name| - 4..] == EspSuffix && '>' !in name
  {
    var name := body[s..e];
    assert name[|name| - 4..] == body[e - 4..e];
    forall c | 0 <= c < |name| ensures name[c] != '>' {
      assert name[c] == body[s + c];
    }
  }

  /** The `k`-th extracted name: the text of the `k`-th span, with its shape and where it starts. */
  lemma EspFindallAt(body: string, k: nat)
    requires k < |EspFindall(body)|
    ensures var name := EspFindall(body)[k];
      var (s, e) := EspScan(body, 0)[k];
      && name == body[s..e]
      && |name| >= 5 && name[|name| - 4..] == EspSuffix && '>' !in name
      && (s == 0 || body[s - 1] == '>')
  {
    EspScanSpan(body, 0, k);
    EspScanStart(body, 0, k);
    var (s, e) := EspScan(body, 0)[k];
    EspSpanText(body, s, e);
  }

  /**
   * The extracted names: each is the text of a greedy match, so it has at least
   * one character before `.esp`, ends in `.esp` and holds no `>`; the matches
   * come in body order without overlapping, each starts at the body's start or
   * just after a `>`, and together they cover every `.esp` that has a character
   * other than `>` just before it.
   */
  lemma EspFindallSpec(body: string)
    ensures var names := EspFindall(body);
      var spans := EspScan(body, 0);
      && (forall k :: 0 <= k < |names| ==>
            && names[k] == body[spans[k].0..spans[k].1]
            && |names[k]| >= 5
            && names[k][|names[k]| - 4..] == EspSuffix
            && '>' !in names[k]
            && (spans[k].0 == 0 || body[spans[k].0 - 1] == '>'))
      && (forall k, l :: 0 <= k < l < |names| ==> spans[k].1 <= spans[l].0)
      && (forall e :: 5 <= e && EspEndsAt(body, e) && body[e - 5] != '>' ==>
            exists k :: 0 <= k < |spans| && spans[k].0 <= e - 4 && e <= spans[k].1)
  {
    var spans := EspScan(body, 0);
    forall k | 0 <= k < |EspFindall(body)|
      ensures && EspFindall(body)[k] == body[spans[k].0..spans[k].1]
              && |EspFindall(body)[k]| >= 5
              && EspFindall(body)[k][|EspFindall(body)[k]| - 4..] == EspSuffix
              && '>' !in EspFindall(body)[k]
              && (spans[k].0 == 0 || body[spans[k].0 - 1] == '>')
    {
      EspFindallAt(body, k);
    }
    forall k, l | 0 <= k < l < |spans| ensures spans[k].1 <= spans[l].0 {
      EspScanOrdered(body, 0, k, l);
    }
    forall e | 5 <= e && EspEndsAt(body, e) && body[e - 5] != '>'
      ensures exists k :: 0 <= k < |spans| && spans[k].0 <= e - 4 && e <= spans[k].1
    {
      var k := EspScanCovers(body, 0, e);
    }
  }

  // ---------------------------------------------------------------------------
  // Detail-page links

  /** The link pattern tried at position `i`: where its greedy `[^"]+` ends. */
  function LinkAt(body: string, i: nat): (r: Option<nat>)
    requires i <= |body|
    ensures r.Some? ==> i + |ModsOpen| < r.value <= |body|
  {
    if HasAt(body, i, ModsOpen) then
      var j := RunEnd(body, i + |ModsOpen|, '"');
      if i + |ModsOpen| < j then Some(j) else None
    else None
  }

  /** The `(start, end)` positions of the matches of the link pattern in `body[i..]`. */
  function LinkScan(body: string, i: nat): (spans: seq<(nat, nat)>)
    requires i <= |body|
    ensures forall k :: 0 <= k < |spans| ==> i <= spans[k].0 && spans[k].0 + |ModsOpen| < spans[k].1 <= |body|
    decreases |body| - i
  {
    if i == |body| then []
    else match LinkAt(body, i)
      case Some(e) => [(i, e)] + LinkScan(body, e)
      case None => LinkScan(body, i + 1)
  }

  /** Each span is `"/mods/` followed by the longest run without `"`. */
  lemma {:induction false} LinkScanSpan(body: string, i: nat, k: nat)
    requires i <= |body| && k < |LinkScan(body, i)|
    ensures var (s, e) := LinkScan(body, i)[k];
      HasAt(body, s, ModsOpen) && e == RunEnd(body, s + |ModsOpen|, '"')
    decreases |body| - i
  {
    match LinkAt(body, i)
    case Some(e) =>
      assert LinkScan(body, i) == [(i, e)] + LinkScan(body, e);
      if k > 0 {
        LinkScanSpan(body, e, k - 1);
      }
    case None =>
      assert LinkScan(body, i) == LinkScan(body, i + 1);
      LinkScanSpan(body, i + 1, k);
  }

  /** Of two spans the earlier one ends before the later one starts. */
  lemma {:induction false} LinkScanOrdered(body: string, i: nat, k: nat, l: nat)
    requires i <= |body| && k < l < |LinkScan(body, i)|
    ensures LinkScan(body, i)[k].1 <= LinkScan(body, i)[l].0
    decreases |body| - i
  {
    match LinkAt(body, i)
    case Some(e) =>
      assert LinkScan(body, i) == [(i, e)] + LinkScan(body, e);
      if k > 0 {
        LinkScanOrdered(body, e, k - 1, l - 1);
      }
    case None =>
      assert LinkScan(body, i) == LinkScan(body, i + 1);
      LinkScanOrdered(body, i + 1, k, l);
  }

  lemma ModsOpenQuoteFree()
    ensures forall k :: 1 <= k < |ModsOpen| ==> ModsOpen[k] != '"'
  {
    forall k | 1 <= k < |ModsOpen| ensures ModsOpen[k] != '"' {
      assert k in {1, 2, 3, 4, 5, 6};
    }
  }

  /** The link pattern matches where `"/mods/` is followed by a character other than `"`. */
  lemma LinkAtFound(body: string, p: nat)
    requires HasAt(body, p, ModsOpen) && p + |ModsOpen| < |body| && body[p + |ModsOpen|] != '"'
    ensures LinkAt(body, p).Some?
  {
  }

  /** A match that starts before a `"/mods/` ends at or before it: its run stops at that `"`. */
  lemma LinkAtStops(body: string, i: nat, p: nat)
    requires i < p && HasAt(body, p, ModsOpen) && i <= |body| && LinkAt(body, i).Some?
    ensures LinkAt(body, i).value <= p
  {
    assert body[p] == body[p..p + |ModsOpen|][0];
    ModsOpenQuoteFree();
    HasAtIff(body, i, ModsOpen);
  }

  /** Every `"/mods/` followed by a character other than `"` starts one of the spans. */
  lemma {:induction false} LinkScanFinds(body: string, i: nat, p: nat) returns (k: nat)
    requires i <= p && HasAt(body, p, ModsOpen) && p + |ModsOpen| < |body| && body[p + |ModsOpen|] != '"'
    ensures k < |LinkScan(body, i)| && LinkScan(body, i)[k].0 == p
    decreases |body| - i
  {
    if i == p {
      LinkAtFound(body, p);
      var e := LinkAt(body, i).value;
      assert LinkScan(body, i) == [(i, e)] + LinkScan(body, e);
      k := 0;
    } else {
      match LinkAt(body, i)
      case Some(e) =>
        assert LinkScan(body, i) == [(i, e)] + LinkScan(body, e);
        LinkAtStops(body, i, p);
        var l := LinkScanFinds(body, e, p);
        k := l + 1;
        assert LinkScan(body, i)[k] == LinkScan(body, e)[l];
      case None =>
        assert LinkScan(body, i) == LinkScan(body, i + 1);
        k := LinkScanFinds(body, i + 1, p);
    }
  }

  /** The detail-page paths a list body links to: each `"/mods/...` match without its leading quote. */
  function ModPaths(body: string): (paths: seq<string>)
    ensures |paths| == |LinkScan(body, 0)|
  {
    var spans := LinkScan(body, 0);
    seq(|spans|, k requires 0 <= k < |spans| => body[spans[k].0 + 1..spans[k].1])
  }

  /** The `k`-th path starts with `/mods/`, has a character after it, holds no `"`, and follows a `"`. */
  lemma ModPathAt(body: string, k: nat)
    requires k < |ModPaths(body)|
    ensures var path := ModPaths(body)[k];
      var s := LinkScan(body, 0)[k].0;
      && |path| > |ModsOpen| - 1
      && path[..|ModsOpen| - 1] == ModsOpen[1..]
      && '"' !in path
      && body[s] == '"'
  {
    var path := ModPaths(body)[k];
    var (s, e) := LinkScan(body, 0)[k];
    ModsOpenQuoteFree();
    LinkScanSpan(body, 0, k);
    assert path == body[s + 1..e];
    assert body[s..s + |ModsOpen|] == ModsOpen;
    assert path[..|ModsOpen| - 1] == body[s + 1..s + |ModsOpen|];
    assert body[s] == ModsOpen[0];
    forall c | 0 <= c < |path| ensures path[c] != '"' {
      assert path[c] == body[s + 1 + c];
      if c + 1 < |ModsOpen| {
        assert body[s + 1 + c] == body[s..s + |ModsOpen|][c + 1];
      }
    }
  }

  /**
   * Every extracted path starts with `/mods/`, has a character after it, holds
   * no `"`, and follows a `"` in the body; the paths come in body order; and
   * every `"/mods/` followed by a character other than `"` yields one.
   */
  lemma ModPathsSpec(body: string)
    ensures var paths := ModPaths(body);
      var spans := LinkScan(body, 0);
      && (forall k :: 0 <= k < |paths| ==>
            && paths[k] == body[spans[k].0 + 1..spans[k].1]
            && |paths[k]| > |ModsOpen| - 1
            && paths[k][..|ModsOpen| - 1] == ModsOpen[1..]
            && '"' !in paths[k]
            && body[spans[k].0] == '"')
      && (forall k, l :: 0 <= k < l < |paths| ==> spans[k].1 <= spans[l].0)
      && (forall p: nat :: HasAt(body, p, ModsOpen) && p + |ModsOpen| < |body| && body[p + |ModsOpen|] != '"' ==>
            exists k :: 0 <= k < |spans| && spans[k].0 == p)
  {
    var spans := LinkScan(body, 0);
    var paths := ModPaths(body);
    forall k | 0 <= k < |paths|
      ensures && |paths[k]| > |ModsOpen| - 1
              && paths[k][..|ModsOpen| - 1] == ModsOpen[1..]
              && '"' !in paths[k]
              && body[spans[k].0] == '"'
    {
      ModPathAt(body, k);
    }
    forall k, l | 0 <= k < l < |paths| ensures spans[k].1 <= spans[l].0 {
      LinkScanOrdered(body, 0, k, l);
    }
    forall p: nat | HasAt(body, p, ModsOpen) && p + |ModsOpen| < |body| && body[p + |ModsOpen|] != '"'
      ensures exists k :: 0 <= k < |spans| && spans[k].0 == p
    {
      var k := LinkScanFinds(body, 0, p);
    }
  }
}
